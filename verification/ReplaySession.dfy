/** A replay session, its serial and batched replays, and what they accept. */
module ReplaySession {
  import opened Bytes
  import opened Replay

  datatype Session = Session(ledger: Ledger, transcript: Transcript)

  const EMPTY_SESSION := Session(Ledger({}, []), Transcript([], []))

  // ---------------------------------------------------------------------
  // One submission
  // ---------------------------------------------------------------------

  /** Records the submission, tries the ledger, records the decision. */
  function Apply(v: Verifier, lc: Lifecycle, s: Session, package: bytes, verification: Result<Ballot, Code>)
    : Result<Session, Code>
  {
    var digest := v.digest(package);
    var submitted := Submit(s.transcript, digest, true);
    var attempt := match verification case Err(code) => Err(code) case Ok(b) => Accept(s.ledger, lc, b);
    var outcome := match attempt case Ok(_) => Accepted case Err(code) => Rejected(code);
    var decided :- Decide(submitted, |s.transcript.submissions|, digest, outcome);
    Ok(Session(if attempt.Ok? then attempt.value else s.ledger, decided))
  }

  /** The serial ingest: decode, verify, bind and accept one package in one go. */
  function Ingest(v: Verifier, lc: Lifecycle, l: Ledger, package: bytes): Result<Ledger, Code> {
    var prepared :- Prepare(v, package);
    var proof :- v.verify(prepared.input);
    var ballot :- Bind(prepared, proof);
    Accept(l, lc, ballot)
  }

  function Intake(v: Verifier, lc: Lifecycle, s: Session, package: bytes): Result<Session, Code> {
    var digest := v.digest(package);
    var submitted := Submit(s.transcript, digest, true);
    var ingested := Ingest(v, lc, s.ledger, package);
    var outcome := match ingested case Ok(_) => Accepted case Err(code) => Rejected(code);
    var decided :- Decide(submitted, |s.transcript.submissions|, digest, outcome);
    Ok(Session(if ingested.Ok? then ingested.value else s.ledger, decided))
  }

  // ---------------------------------------------------------------------
  // Whole replays
  // ---------------------------------------------------------------------

  function SerialReplay(v: Verifier, lc: Lifecycle, s: Session, packages: seq<bytes>): Result<Session, Code>
    decreases |packages|
  {
    if packages == [] then Ok(s) else
      var next :- Intake(v, lc, s, packages[0]);
      SerialReplay(v, lc, next, packages[1..])
  }

  function ApplyAll(v: Verifier, lc: Lifecycle, s: Session, packages: seq<bytes>, results: seq<Result<Ballot, Code>>)
    : Result<Session, Code>
    requires |results| == |packages|
    decreases |packages|
  {
    if packages == [] then Ok(s) else
      var next :- Apply(v, lc, s, packages[0], results[0]);
      ApplyAll(v, lc, next, packages[1..], results[1..])
  }

  /** Results of contiguous chunks of at most `size` packages, concatenated. */
  function ChunkedResults(v: Verifier, packages: seq<bytes>, size: nat): seq<Result<Ballot, Code>>
    requires size > 0
    decreases |packages|
  {
    if packages == [] then []
    else if |packages| <= size then VerifyBatch(v, packages)
    else VerifyBatch(v, packages[..size]) + ChunkedResults(v, packages[size..], size)
  }

  function BatchedReplay(v: Verifier, lc: Lifecycle, s: Session, packages: seq<bytes>, size: nat): Result<Session, Code>
    requires size > 0
  {
    var results := ChunkedResults(v, packages, size);
    if |results| != |packages| then Err(InvalidData) else ApplyAll(v, lc, s, packages, results)
  }

  // ---------------------------------------------------------------------
  // Batched replay is serial replay
  // ---------------------------------------------------------------------

  lemma {:induction false} ChunkedIsEach(v: Verifier, packages: seq<bytes>, size: nat)
    requires BatchContract(v) && size > 0
    ensures ChunkedResults(v, packages, size) == VerifyEach(v, packages)
    decreases |packages|
  {
    hide VerifyBatch, VerifyOne, BatchContract;
    if packages != [] {
      if |packages| <= size {
        BatchIsPointwise(v, packages);
      } else {
        BatchIsPointwise(v, packages[..size]);
        ChunkedIsEach(v, packages[size..], size);
        var a, b := VerifyEach(v, packages[..size]), VerifyEach(v, packages[size..]);
        forall i | 0 <= i < |packages|
          ensures (a + b)[i] == VerifyOne(v, packages[i])
        {
          if i >= size {
            assert packages[size..][i - size] == packages[i];
          }
        }
        assert a + b == VerifyEach(v, packages);
      }
    }
  }

  lemma {:induction false} ApplyEachIsSerial(v: Verifier, lc: Lifecycle, s: Session, packages: seq<bytes>)
    ensures ApplyAll(v, lc, s, packages, VerifyEach(v, packages)) == SerialReplay(v, lc, s, packages)
    decreases |packages|
  {
    if packages != [] {
      assert Apply(v, lc, s, packages[0], VerifyOne(v, packages[0])) == Intake(v, lc, s, packages[0]);
      var next := Intake(v, lc, s, packages[0]);
      assert VerifyEach(v, packages)[1..] == VerifyEach(v, packages[1..]);
      if next.Ok? {
        ApplyEachIsSerial(v, lc, next.value, packages[1..]);
      }
    }
  }

  /** For every submission list, session and batch size, both replays end in the same session. */
  lemma BatchedIsSerial(v: Verifier, lc: Lifecycle, s: Session, packages: seq<bytes>, size: nat)
    requires BatchContract(v) && size > 0
    ensures BatchedReplay(v, lc, s, packages, size) == SerialReplay(v, lc, s, packages)
  {
    ChunkedIsEach(v, packages, size);
    ApplyEachIsSerial(v, lc, s, packages);
  }

  // ---------------------------------------------------------------------
  // First valid ballot of each nullifier
  // ---------------------------------------------------------------------

  /** The package verifies and its ballot passes the lifecycle gate. */
  predicate Countable(v: Verifier, lc: Lifecycle, package: bytes) {
    VerifyOne(v, package).Ok? && Gate(lc, VerifyOne(v, package).value).Ok?
  }

  function NullifierOf(v: Verifier, package: bytes): bytes
    requires VerifyOne(v, package).Ok?
  {
    VerifyOne(v, package).value.proof.nullifier
  }

  /** An earlier countable package already used the nullifier of package `i`. */
  ghost predicate UsedBefore(v: Verifier, lc: Lifecycle, packages: seq<bytes>, i: nat)
    requires i < |packages| && Countable(v, lc, packages[i])
  {
    exists j :: 0 <= j < i && Countable(v, lc, packages[j]) && NullifierOf(v, packages[j]) == NullifierOf(v, packages[i])
  }

  /** What the transcript must say about package `i`. */
  ghost function ExpectedOutcome(v: Verifier, lc: Lifecycle, packages: seq<bytes>, i: nat): Decided
    requires i < |packages|
  {
    match VerifyOne(v, packages[i])
    case Err(code) => Rejected(code)
    case Ok(b) =>
      match Gate(lc, b)
      case Err(code) => Rejected(code)
      case Ok(_) => if UsedBefore(v, lc, packages, i) then Rejected(DuplicateNullifier) else Accepted
  }

  /** The first countable ballot of each nullifier, in archive order. */
  ghost function FirstBallots(v: Verifier, lc: Lifecycle, packages: seq<bytes>): seq<Ballot> {
    if packages == [] then []
    else
      var n := |packages| - 1;
      FirstBallots(v, lc, packages[..n])
      + if ExpectedOutcome(v, lc, packages, n).Accepted? then [VerifyOne(v, packages[n]).value] else []
  }

  /** The session after `packages`, said of the packages alone. */
  ghost predicate Describes(v: Verifier, lc: Lifecycle, packages: seq<bytes>, s: Session) {
    && ValidTranscript(s.transcript)
    && |s.transcript.submissions| == |s.transcript.decisions| == |packages|
    && (forall i :: 0 <= i < |packages| ==>
          && s.transcript.submissions[i] == Submission(i, v.digest(packages[i]), true)
          && s.transcript.decisions[i].outcome == ExpectedOutcome(v, lc, packages, i))
    && s.ledger.accepted == FirstBallots(v, lc, packages)
    && (forall k :: k in s.ledger.seen <==>
          exists j :: 0 <= j < |packages| && Countable(v, lc, packages[j]) && NullifierOf(v, packages[j]) == k)
  }

  lemma SamePrefixOutcome(v: Verifier, lc: Lifecycle, packages: seq<bytes>, package: bytes, i: nat)
    requires i < |packages|
    ensures ExpectedOutcome(v, lc, packages + [package], i) == ExpectedOutcome(v, lc, packages, i)
  {
    var longer := packages + [package];
    assert forall j :: 0 <= j < |packages| ==> longer[j] == packages[j];
    if Countable(v, lc, packages[i]) {
      if UsedBefore(v, lc, packages, i) {
        var j :| 0 <= j < i && Countable(v, lc, packages[j]) && NullifierOf(v, packages[j]) == NullifierOf(v, packages[i]);
        assert Countable(v, lc, longer[j]);
      }
      if UsedBefore(v, lc, longer, i) {
        var j :| 0 <= j < i && Countable(v, lc, longer[j]) && NullifierOf(v, longer[j]) == NullifierOf(v, longer[i]);
        assert Countable(v, lc, packages[j]);
      }
    }
  }

  lemma IntakeOutcome(v: Verifier, lc: Lifecycle, packages: seq<bytes>, s: Session, package: bytes)
    requires Describes(v, lc, packages, s)
    ensures Intake(v, lc, s, package).Ok?
    ensures var s' := Intake(v, lc, s, package).value;
            var outcome := ExpectedOutcome(v, lc, packages + [package], |packages|);
            && s'.transcript.submissions == s.transcript.submissions + [Submission(|packages|, v.digest(package), true)]
            && s'.transcript.decisions == s.transcript.decisions + [Decision(|packages|, v.digest(package), outcome)]
            && s'.ledger == if outcome.Accepted?
                            then Ledger(s.ledger.seen + {NullifierOf(v, package)}, s.ledger.accepted + [VerifyOne(v, package).value])
                            else s.ledger
  {
    var longer := packages + [package];
    if Countable(v, lc, package) {
      assert UsedBefore(v, lc, longer, |packages|) <==> NullifierOf(v, package) in s.ledger.seen by {
        if UsedBefore(v, lc, longer, |packages|) {
          var j :| 0 <= j < |packages| && Countable(v, lc, longer[j]) && NullifierOf(v, longer[j]) == NullifierOf(v, package);
          assert longer[j] == packages[j];
        }
        if NullifierOf(v, package) in s.ledger.seen {
          var j :| 0 <= j < |packages| && Countable(v, lc, packages[j]) && NullifierOf(v, packages[j]) == NullifierOf(v, package);
          assert longer[j] == packages[j];
        }
      }
    }
  }

  lemma IntakeDescribes(v: Verifier, lc: Lifecycle, packages: seq<bytes>, s: Session, package: bytes)
    requires Describes(v, lc, packages, s)
    ensures Intake(v, lc, s, package).Ok? && Describes(v, lc, packages + [package], Intake(v, lc, s, package).value)
  {
    IntakeOutcome(v, lc, packages, s, package);
    var longer, s' := packages + [package], Intake(v, lc, s, package).value;
    hide Intake;
    forall i | 0 <= i < |longer|
      ensures s'.transcript.submissions[i] == Submission(i, v.digest(longer[i]), true)
      ensures s'.transcript.decisions[i].outcome == ExpectedOutcome(v, lc, longer, i)
    {
      if i < |packages| {
        SamePrefixOutcome(v, lc, packages, package, i);
      }
    }
    assert longer[..|packages|] == packages;
    SeenAfter(v, lc, packages, s, package, s'.ledger.seen);
  }

  lemma SeenAfter(v: Verifier, lc: Lifecycle, packages: seq<bytes>, s: Session, package: bytes, seen: set<bytes>)
    requires Describes(v, lc, packages, s)
    requires seen == if ExpectedOutcome(v, lc, packages + [package], |packages|).Accepted?
                     then s.ledger.seen + {NullifierOf(v, package)} else s.ledger.seen
    ensures forall k :: k in seen <==>
            exists j :: 0 <= j < |packages + [package]| && Countable(v, lc, (packages + [package])[j])
                        && NullifierOf(v, (packages + [package])[j]) == k
  {
    var longer := packages + [package];
    forall k
      ensures k in seen <==>
              exists j :: 0 <= j < |longer| && Countable(v, lc, longer[j]) && NullifierOf(v, longer[j]) == k
    {
      if k in s.ledger.seen {
        var j :| 0 <= j < |packages| && Countable(v, lc, packages[j]) && NullifierOf(v, packages[j]) == k;
        assert longer[j] == packages[j];
      } else if k in seen {
        assert longer[|packages|] == package;
      }
      if j :| 0 <= j < |longer| && Countable(v, lc, longer[j]) && NullifierOf(v, longer[j]) == k {
        if j < |packages| {
          assert longer[j] == packages[j];
        } else if UsedBefore(v, lc, longer, j) {
          var i :| 0 <= i < j && Countable(v, lc, longer[i]) && NullifierOf(v, longer[i]) == k;
          assert longer[i] == packages[i];
        }
      }
    }
  }

  lemma {:induction false} SerialFrom(v: Verifier, lc: Lifecycle, done: seq<bytes>, s: Session, packages: seq<bytes>)
    requires Describes(v, lc, done, s)
    ensures SerialReplay(v, lc, s, packages).Ok?
    ensures Describes(v, lc, done + packages, SerialReplay(v, lc, s, packages).value)
    decreases |packages|
  {
    hide Describes, Intake;
    if packages == [] {
      assert done + packages == done;
    } else {
      IntakeDescribes(v, lc, done, s, packages[0]);
      SerialFrom(v, lc, done + [packages[0]], Intake(v, lc, s, packages[0]).value, packages[1..]);
      assert done + [packages[0]] + packages[1..] == done + packages;
    }
  }

  lemma StartDescribes(v: Verifier, lc: Lifecycle)
    ensures Describes(v, lc, [], EMPTY_SESSION)
  {
  }

  /**
   Replaying an archive never fails: the transcript decides every submission,
   and the ledger holds the first countable ballot of each nullifier.
   */
  lemma ReplayAcceptsFirstValid(v: Verifier, lc: Lifecycle, packages: seq<bytes>, size: nat)
    requires BatchContract(v) && size > 0
    ensures BatchedReplay(v, lc, EMPTY_SESSION, packages, size).Ok?
    ensures var s := BatchedReplay(v, lc, EMPTY_SESSION, packages, size).value;
            Describes(v, lc, packages, s) && Check(s.transcript) == Ok(())
  {
    hide BatchContract, BatchedReplay, SerialReplay, ExpectedOutcome, FirstBallots, Countable, Check, NullifierOf;
    BatchedIsSerial(v, lc, EMPTY_SESSION, packages, size);
    StartDescribes(v, lc);
    SerialFrom(v, lc, [], EMPTY_SESSION, packages);
    assert [] + packages == packages;
    CompleteIffDecided(SerialReplay(v, lc, EMPTY_SESSION, packages).value.transcript);
  }

  // ---------------------------------------------------------------------
  // The session of an election opened under its own commitments
  // ---------------------------------------------------------------------

  /** The lifecycle frozen to the election's own commitments and opened. */
  function OpenedFor(e: Election): Lifecycle {
    Lifecycle(Open, Some(e.manifestHash), Some(e.registryCommitment))
  }

  /** Every verified ballot passes the gate of its own election. */
  lemma OwnGatePasses(v: Verifier, package: bytes)
    requires VerifyOne(v, package).Ok?
    ensures Countable(v, OpenedFor(v.election), package)
  {
    hide VerifyOne;
    VerifiedQuotesElection(v, package);
  }

  ghost predicate VerifiedBefore(v: Verifier, packages: seq<bytes>, i: nat)
    requires i < |packages| && VerifyOne(v, packages[i]).Ok?
  {
    exists j :: 0 <= j < i && VerifyOne(v, packages[j]).Ok? && NullifierOf(v, packages[j]) == NullifierOf(v, packages[i])
  }

  /** The verdict on package `i`, from the cryptographic results alone. */
  ghost function FirstVerifiedOutcome(v: Verifier, packages: seq<bytes>, i: nat): Decided
    requires i < |packages|
  {
    match VerifyOne(v, packages[i])
    case Err(code) => Rejected(code)
    case Ok(_) => if VerifiedBefore(v, packages, i) then Rejected(DuplicateNullifier) else Accepted
  }

  /** The first verified ballot of each nullifier, in archive order. */
  ghost function FirstVerified(v: Verifier, packages: seq<bytes>): seq<Ballot> {
    if packages == [] then []
    else
      var n := |packages| - 1;
      FirstVerified(v, packages[..n])
      + if FirstVerifiedOutcome(v, packages, n).Accepted? then [VerifyOne(v, packages[n]).value] else []
  }

  lemma OwnOutcome(v: Verifier, packages: seq<bytes>, i: nat)
    requires i < |packages|
    ensures ExpectedOutcome(v, OpenedFor(v.election), packages, i) == FirstVerifiedOutcome(v, packages, i)
  {
    hide VerifyOne;
    var lc := OpenedFor(v.election);
    forall package | VerifyOne(v, package).Ok?
      ensures Countable(v, lc, package)
    {
      OwnGatePasses(v, package);
    }
  }

  lemma {:induction false} OwnBallots(v: Verifier, packages: seq<bytes>)
    ensures FirstBallots(v, OpenedFor(v.election), packages) == FirstVerified(v, packages)
    decreases |packages|
  {
    hide VerifyOne, ExpectedOutcome, FirstVerifiedOutcome;
    if packages != [] {
      var n := |packages| - 1;
      OwnBallots(v, packages[..n]);
      OwnOutcome(v, packages, n);
    }
  }

  /** The positions of the first verified package of each nullifier. */
  ghost function FirstPositions(v: Verifier, packages: seq<bytes>): (r: seq<nat>)
    ensures forall k :: 0 <= k < |r| ==> r[k] < |packages| && VerifyOne(v, packages[r[k]]).Ok?
    ensures forall k, l :: 0 <= k < l < |r| ==> r[k] < r[l]
    ensures forall i :: 0 <= i < |packages| ==> (i in r <==> VerifyOne(v, packages[i]).Ok? && !VerifiedBefore(v, packages, i))
  {
    hide VerifyOne, VerifiedBefore;
    if packages == [] then []
    else
      var n := |packages| - 1;
      var before := FirstPositions(v, packages[..n]);
      SamePrefixVerified(v, packages, n);
      if FirstVerifiedOutcome(v, packages, n).Accepted? then before + [n] else before
  }

  lemma SamePrefixVerified(v: Verifier, packages: seq<bytes>, n: nat)
    requires n <= |packages|
    ensures forall i :: 0 <= i < n && VerifyOne(v, packages[i]).Ok? ==>
              VerifiedBefore(v, packages[..n], i) == VerifiedBefore(v, packages, i)
  {
    hide VerifyOne;
    forall i | 0 <= i < n && VerifyOne(v, packages[i]).Ok?
      ensures VerifiedBefore(v, packages[..n], i) == VerifiedBefore(v, packages, i)
    {
      assert forall j :: 0 <= j <= i ==> packages[..n][j] == packages[j];
    }
  }

  lemma {:induction false} FirstVerifiedAt(v: Verifier, packages: seq<bytes>)
    ensures |FirstVerified(v, packages)| == |FirstPositions(v, packages)|
    ensures forall k :: 0 <= k < |FirstPositions(v, packages)| ==>
              FirstVerified(v, packages)[k] == VerifyOne(v, packages[FirstPositions(v, packages)[k]]).value
    decreases |packages|
  {
    hide VerifyOne, FirstVerifiedOutcome, VerifiedBefore;
    if packages != [] {
      var n := |packages| - 1;
      FirstVerifiedAt(v, packages[..n]);
    }
  }

  /**
   In a session opened under the election's own commitments, the accepted ballots are exactly
   the first cryptographically valid package of each nullifier, in archive order: each with the
   payload its package decodes to and the verifier's result for its proof.
   */
  lemma OwnSessionAcceptsFirstVerified(v: Verifier, packages: seq<bytes>, size: nat)
    requires BatchContract(v) && size > 0
    ensures var r := BatchedReplay(v, OpenedFor(v.election), EMPTY_SESSION, packages, size);
            && r.Ok?
            && |r.value.transcript.decisions| == |packages|
            && (forall i :: 0 <= i < |packages| ==>
                  r.value.transcript.decisions[i].outcome == FirstVerifiedOutcome(v, packages, i))
            && var accepted, positions := r.value.ledger.accepted, FirstPositions(v, packages);
               && |accepted| == |positions|
               && forall k :: 0 <= k < |accepted| ==> CountsPackage(v, packages[positions[k]], accepted[k])
  {
    hide BatchedReplay, ExpectedOutcome, FirstVerifiedOutcome, FirstBallots, FirstVerified, BatchContract, VerifyOne;
    var lc := OpenedFor(v.election);
    ReplayAcceptsFirstValid(v, lc, packages, size);
    OwnBallots(v, packages);
    forall i | 0 <= i < |packages|
      ensures ExpectedOutcome(v, lc, packages, i) == FirstVerifiedOutcome(v, packages, i)
    {
      OwnOutcome(v, packages, i);
    }
    FirstVerifiedAt(v, packages);
    var positions := FirstPositions(v, packages);
    forall k | 0 <= k < |positions|
      ensures CountsPackage(v, packages[positions[k]], FirstVerified(v, packages)[k])
    {
      VerifyOneIff(v, packages[positions[k]], VerifyOne(v, packages[positions[k]]).value);
    }
  }

  /** `b` is the ballot of this package: its decoded payload and the verifier's result for its proof. */
  ghost predicate CountsPackage(v: Verifier, package: bytes, b: Ballot) {
    && v.decode(package).Ok?
    && var d := v.decode(package).value;
       && b.payload == d.payload && v.payloadHash(d.payload).Ok?
       && v.verify(ProofInput(StatementFor(v.election, v.payloadHash(d.payload).value), d.proof)) == Ok(b.proof)
  }

  /** As many ballots are accepted as decisions say so. */
  lemma {:induction false} AcceptedCountIsLedger(v: Verifier, lc: Lifecycle, packages: seq<bytes>, decisions: seq<Decision>)
    requires |decisions| == |packages|
    requires forall i :: 0 <= i < |packages| ==> decisions[i].outcome == ExpectedOutcome(v, lc, packages, i)
    ensures CountAccepted(decisions) == |FirstBallots(v, lc, packages)|
  {
    if packages != [] {
      var n := |packages| - 1;
      var init := packages[..n];
      assert packages == init + [packages[n]];
      forall i | 0 <= i < n
        ensures decisions[..n][i].outcome == ExpectedOutcome(v, lc, init, i)
      {
        SamePrefixOutcome(v, lc, init, packages[n], i);
      }
      AcceptedCountIsLedger(v, lc, init, decisions[..n]);
    }
  }

  // ---------------------------------------------------------------------
  // The session object
  // ---------------------------------------------------------------------

  class ArchiveReplaySession {
    const verifier: Verifier
    const lifecycle: Lifecycle
    const ledger: BallotAcceptanceLedger
    const transcript: VerificationTranscript

    ghost function Contents(): Session
      reads ledger, transcript
    {
      Session(ledger.Contents(), transcript.Contents())
    }

    constructor (verifier: Verifier, lifecycle: Lifecycle)
      ensures Contents() == EMPTY_SESSION && fresh(ledger) && fresh(transcript)
      ensures this.verifier == verifier && this.lifecycle == lifecycle
    {
      this.verifier, this.lifecycle := verifier, lifecycle;
      ledger := new BallotAcceptanceLedger();
      transcript := new VerificationTranscript();
    }

    method ApplyVerified(package: bytes, verification: Result<Ballot, Code>) returns (r: Result<(), Code>)
      modifies ledger, transcript
      ensures match Apply(verifier, lifecycle, old(Contents()), package, verification)
              case Ok(s) => r == Ok(()) && Contents() == s
              case Err(code) => r == Err(code)
    {
      var digest := verifier.digest(package);
      var sequence := transcript.RecordSubmission(digest, true);
      var attempt: Result<(), Code>;
      match verification {
        case Ok(ballot) => attempt := ledger.AcceptVerified(lifecycle, ballot);
        case Err(code) => attempt := Err(code);
      }
      var outcome := if attempt.Ok? then Accepted else Rejected(attempt.error);
      r := transcript.RecordDecision(sequence, digest, outcome);
    }

    /** Verifies contiguous chunks together, then applies the results one by one in archive order. */
    method ReplayBatched(packages: seq<bytes>, size: nat) returns (r: Result<(), Code>)
      requires size > 0
      modifies ledger, transcript
      ensures match BatchedReplay(verifier, lifecycle, old(Contents()), packages, size)
              case Ok(s) => r == Ok(()) && Contents() == s
              case Err(code) => r == Err(code)
    {
      var results := CollectResults(verifier, packages, size);
      if |results| != |packages| {
        return Err(InvalidData);
      }
      var i := 0;
      assert packages[0..] == packages && results[0..] == results;
      while i < |packages|
        invariant 0 <= i <= |packages|
        invariant ApplyAll(verifier, lifecycle, Contents(), packages[i..], results[i..])
               == ApplyAll(verifier, lifecycle, old(Contents()), packages, results)
      {
        var applied := ApplyVerified(packages[i], results[i]);
        if applied.Err? {
          return applied;
        }
        assert packages[i..][1..] == packages[i + 1..] && results[i..][1..] == results[i + 1..];
        i := i + 1;
      }
      return Ok(());
    }
  }

  lemma ChunkStep(v: Verifier, packages: seq<bytes>, size: nat)
    requires size > 0 && packages != []
    ensures var n := if size < |packages| then size else |packages|;
            ChunkedResults(v, packages, size) == VerifyBatch(v, packages[..n]) + ChunkedResults(v, packages[n..], size)
  {
    if |packages| <= size {
      assert packages[..|packages|] == packages && packages[|packages|..] == [];
    }
  }

  /** The chunk loop. */
  method CollectResults(v: Verifier, packages: seq<bytes>, size: nat) returns (results: seq<Result<Ballot, Code>>)
    requires size > 0
    ensures results == ChunkedResults(v, packages, size)
  {
    results := [];
    var start := 0;
    assert packages[0..] == packages;
    while start < |packages|
      invariant 0 <= start <= |packages|
      invariant results + ChunkedResults(v, packages[start..], size) == ChunkedResults(v, packages, size)
    {
      var end := if start + size < |packages| then start + size else |packages|;
      var chunk := VerifyBatch(v, packages[start..end]);
      ChunkStep(v, packages[start..], size);
      assert packages[start..end] == packages[start..][..end - start];
      assert packages[end..] == packages[start..][end - start..];
      results, start := results + chunk, end;
    }
  }
}
