/**
 Ballot replay: the append-only transcript, the acceptance ledger, the serial
 replay, and the batched replay that must agree with it.
 */
module Replay {
  import opened Bytes

  datatype Code =
    | DuplicateBallotDecision | InvalidIngestSequence | BallotDecisionDigestMismatch | IncompleteVerificationTranscript
    | DuplicateNullifier | ElectionNotOpen | InvalidLifecycleTransition | WrongManifestHash
    | LifecycleCommitmentMismatch | InvalidData | ProtocolLimitExceeded | OtherCode(id: nat)

  // ---------------------------------------------------------------------
  // Transcript
  // ---------------------------------------------------------------------

  datatype Decided = Accepted | Rejected(code: Code)
  datatype Submission = Submission(sequence: nat, digest: bytes, receivedBeforeClose: bool)
  datatype Decision = Decision(sequence: nat, digest: bytes, outcome: Decided)
  datatype Transcript = Transcript(submissions: seq<Submission>, decisions: seq<Decision>)

  function Submit(t: Transcript, digest: bytes, beforeClose: bool): Transcript {
    t.(submissions := t.submissions + [Submission(|t.submissions|, digest, beforeClose)])
  }

  function Decide(t: Transcript, sequence: nat, digest: bytes, outcome: Decided): Result<Transcript, Code> {
    if sequence < |t.decisions| then Err(DuplicateBallotDecision)
    else if sequence > |t.decisions| then Err(InvalidIngestSequence)
    else if sequence >= |t.submissions| then Err(InvalidIngestSequence)
    else if t.submissions[sequence].digest != digest then Err(BallotDecisionDigestMismatch)
    else Ok(t.(decisions := t.decisions + [Decision(sequence, digest, outcome)]))
  }

  /** Contiguous sequence numbers, and every decision on the submission at its position. */
  predicate ValidTranscript(t: Transcript) {
    && |t.decisions| <= |t.submissions|
    && (forall i :: 0 <= i < |t.submissions| ==> t.submissions[i].sequence == i)
    && (forall i :: 0 <= i < |t.decisions| ==>
          t.decisions[i].sequence == i && t.decisions[i].digest == t.submissions[i].digest)
  }

  function Check(t: Transcript): Result<(), Code> {
    if |t.submissions| != |t.decisions| then Err(IncompleteVerificationTranscript)
    else CheckFrom(t, 0)
  }

  function CheckFrom(t: Transcript, i: nat): Result<(), Code>
    requires |t.submissions| == |t.decisions|
    decreases |t.submissions| - i
  {
    if i >= |t.submissions| then Ok(())
    else if t.submissions[i].sequence != t.decisions[i].sequence then Err(InvalidIngestSequence)
    else if t.submissions[i].digest != t.decisions[i].digest then Err(BallotDecisionDigestMismatch)
    else CheckFrom(t, i + 1)
  }

  lemma {:induction false} CheckFromValid(t: Transcript, i: nat)
    requires ValidTranscript(t) && |t.submissions| == |t.decisions|
    ensures CheckFrom(t, i) == Ok(())
    decreases |t.submissions| - i
  {
    if i < |t.submissions| {
      CheckFromValid(t, i + 1);
    }
  }

  /** A transcript built through its two operations is complete exactly when nothing awaits a decision. */
  lemma CompleteIffDecided(t: Transcript)
    requires ValidTranscript(t)
    ensures Check(t) == Ok(()) <==> |t.decisions| == |t.submissions|
  {
    if |t.decisions| == |t.submissions| {
      CheckFromValid(t, 0);
    }
  }

  /** Position `i` holds a decision on the submission at `i`. */
  predicate Answers(t: Transcript, i: nat)
    requires i < |t.submissions| && i < |t.decisions|
  {
    t.decisions[i].sequence == t.submissions[i].sequence && t.decisions[i].digest == t.submissions[i].digest
  }

  ghost predicate FirstUnanswered(t: Transcript, from: nat, i: int)
    requires |t.submissions| == |t.decisions|
  {
    from <= i < |t.submissions| && !Answers(t, i) && forall j :: from <= j < i ==> Answers(t, j)
  }

  /** Any transcript: complete exactly when every position is answered; else the first that is not decides the error. */
  lemma CheckVerdict(t: Transcript)
    ensures |t.submissions| != |t.decisions| ==> Check(t) == Err(IncompleteVerificationTranscript)
    ensures |t.submissions| == |t.decisions| ==>
              (Check(t) == Ok(()) <==> forall i :: 0 <= i < |t.submissions| ==> Answers(t, i))
    ensures |t.submissions| == |t.decisions| ==>
              forall i :: FirstUnanswered(t, 0, i) ==>
                Check(t) == Err(if t.decisions[i].sequence != t.submissions[i].sequence then InvalidIngestSequence
                                else BallotDecisionDigestMismatch)
  {
    if |t.submissions| == |t.decisions| {
      CheckFromComplete(t, 0);
      forall i | FirstUnanswered(t, 0, i)
        ensures Check(t) == Err(if t.decisions[i].sequence != t.submissions[i].sequence then InvalidIngestSequence
                                else BallotDecisionDigestMismatch)
      {
        CheckFromRefuses(t, 0, i);
      }
    }
  }

  lemma {:induction false} CheckFromComplete(t: Transcript, from: nat)
    requires |t.submissions| == |t.decisions|
    ensures CheckFrom(t, from) == Ok(()) <==> forall i :: from <= i < |t.submissions| ==> Answers(t, i)
    decreases |t.submissions| - from
  {
    if from < |t.submissions| {
      CheckFromComplete(t, from + 1);
      var answered := Answers(t, from);
    }
  }

  lemma {:induction false} CheckFromRefuses(t: Transcript, from: nat, i: nat)
    requires |t.submissions| == |t.decisions| && FirstUnanswered(t, from, i)
    ensures CheckFrom(t, from) == Err(if t.decisions[i].sequence != t.submissions[i].sequence then InvalidIngestSequence
                                      else BallotDecisionDigestMismatch)
    decreases i - from
  {
    if from < i {
      assert Answers(t, from);
      CheckFromRefuses(t, from + 1, i);
    }
  }

  /** The next decision in order, on that submission's digest, is appended; any other is refused for its reason. */
  lemma DecideVerdict(t: Transcript, sequence: nat, digest: bytes, outcome: Decided)
    requires ValidTranscript(t)
    ensures var next := |t.decisions|;
            var r := Decide(t, sequence, digest, outcome);
            && (sequence < next ==> r == Err(DuplicateBallotDecision))
            && (sequence > next || next == |t.submissions| == sequence ==> r == Err(InvalidIngestSequence))
            && (sequence == next < |t.submissions| && digest != t.submissions[next].digest ==>
                  r == Err(BallotDecisionDigestMismatch))
            && (sequence == next < |t.submissions| && digest == t.submissions[next].digest ==>
                  r == Ok(Transcript(t.submissions, t.decisions + [Decision(next, t.submissions[next].digest, outcome)])))
  {
  }

  class VerificationTranscript {
    var submissions: seq<Submission>
    var decisions: seq<Decision>

    ghost function Contents(): Transcript
      reads this
    {
      Transcript(submissions, decisions)
    }

    constructor ()
      ensures Contents() == Transcript([], [])
    {
      submissions, decisions := [], [];
    }

    method RecordSubmission(digest: bytes, beforeClose: bool) returns (sequence: nat)
      modifies this
      ensures sequence == |old(submissions)| && Contents() == Submit(old(Contents()), digest, beforeClose)
      ensures ValidTranscript(old(Contents())) ==> ValidTranscript(Contents())
    {
      sequence := |submissions|;
      submissions := submissions + [Submission(sequence, digest, beforeClose)];
    }

    /** Appends the next decision, or refuses and leaves the transcript as it was. */
    method RecordDecision(sequence: nat, digest: bytes, outcome: Decided) returns (r: Result<(), Code>)
      modifies this
      ensures match Decide(old(Contents()), sequence, digest, outcome)
              case Ok(t) => r == Ok(()) && Contents() == t
              case Err(code) => r == Err(code) && Contents() == old(Contents())
      ensures ValidTranscript(old(Contents())) ==> ValidTranscript(Contents())
    {
      if sequence < |decisions| {
        return Err(DuplicateBallotDecision);
      }
      if sequence > |decisions| || sequence >= |submissions| {
        return Err(InvalidIngestSequence);
      }
      if submissions[sequence].digest != digest {
        return Err(BallotDecisionDigestMismatch);
      }
      decisions := decisions + [Decision(sequence, digest, outcome)];
      return Ok(());
    }

    method AcceptedCount() returns (n: nat)
      ensures n == CountAccepted(decisions) <= |decisions|
    {
      n := 0;
      var i := 0;
      while i < |decisions|
        invariant 0 <= i <= |decisions|
        invariant n == CountAccepted(decisions[..i]) <= i
      {
        assert decisions[..i + 1][..i] == decisions[..i];
        if decisions[i].outcome.Accepted? {
          n := n + 1;
        }
        i := i + 1;
      }
      assert decisions[..i] == decisions;
    }
  }

  function CountAccepted(decisions: seq<Decision>): nat {
    if decisions == [] then 0
    else CountAccepted(decisions[..|decisions| - 1]) + if decisions[|decisions| - 1].outcome.Accepted? then 1 else 0
  }

  // ---------------------------------------------------------------------
  // Ledger
  // ---------------------------------------------------------------------

  /** What a proof authenticates; `terms` are protocol version, suite, ballot kind and confidentiality. */
  datatype Statement = Statement(
    terms: bytes, manifestHash: bytes, scope: bytes, registryCommitment: bytes, payloadHash: bytes)

  datatype VerifiedProof = VerifiedProof(statement: Statement, nullifier: bytes)

  datatype Ballot = Ballot(proof: VerifiedProof, payload: bytes)

  datatype LifecycleState = Draft | Frozen | Open | Closed | Later
  datatype Lifecycle = Lifecycle(state: LifecycleState, manifestHash: Option<bytes>, registryCommitment: Option<bytes>)

  /** `validate_ballot_statement`: the gate in front of the ledger. */
  function Gate(lc: Lifecycle, b: Ballot): Result<(), Code> {
    if !lc.state.Open? && !lc.state.Closed? then Err(ElectionNotOpen)
    else if lc.manifestHash.None? || lc.registryCommitment.None? then Err(InvalidLifecycleTransition)
    else if b.proof.statement.manifestHash != lc.manifestHash.value then Err(WrongManifestHash)
    else if b.proof.statement.registryCommitment != lc.registryCommitment.value then Err(LifecycleCommitmentMismatch)
    else Ok(())
  }

  datatype Ledger = Ledger(seen: set<bytes>, accepted: seq<Ballot>)

  function Accept(l: Ledger, lc: Lifecycle, b: Ballot): Result<Ledger, Code> {
    var _ :- Gate(lc, b);
    if b.proof.nullifier in l.seen then Err(DuplicateNullifier)
    else Ok(Ledger(l.seen + {b.proof.nullifier}, l.accepted + [b]))
  }

  class BallotAcceptanceLedger {
    var seen: set<bytes>
    var accepted: seq<Ballot>

    ghost function Contents(): Ledger
      reads this
    {
      Ledger(seen, accepted)
    }

    constructor ()
      ensures Contents() == Ledger({}, [])
    {
      seen, accepted := {}, [];
    }

    /** Counts the first valid ballot of a nullifier; a refusal leaves the ledger as it was. */
    method AcceptVerified(lc: Lifecycle, b: Ballot) returns (r: Result<(), Code>)
      modifies this
      ensures match Accept(old(Contents()), lc, b)
              case Ok(l) => r == Ok(()) && Contents() == l
              case Err(code) => r == Err(code) && Contents() == old(Contents())
    {
      r := Gate(lc, b);
      if r.Ok? {
        if b.proof.nullifier in seen {
          return Err(DuplicateNullifier);
        }
        seen, accepted := seen + {b.proof.nullifier}, accepted + [b];
      }
    }
  }

  // ---------------------------------------------------------------------
  // Verification of packages
  // ---------------------------------------------------------------------

  const MAX_PROOF_BYTES := 65_536

  /** The manifest of the election as statements quote it. */
  datatype Election = Election(terms: bytes, suite: bytes, manifestHash: bytes, scope: bytes, registryCommitment: bytes)

  /** What the transport, binding, policy and payload checks leave of a package. */
  datatype Decoded = Decoded(payload: bytes, proof: bytes)

  /** What the proof verifier is given. */
  datatype ProofInput = ProofInput(statement: Statement, proof: bytes)

  datatype Prepared = Prepared(input: ProofInput, payload: bytes)

  /**
   The package decoder and the proof verifier of one election. `verifyBatch`
   checks many proofs together.
   */
  datatype Verifier = Verifier(
    election: Election,
    suite: bytes,
    digest: bytes -> bytes,
    decode: bytes -> Result<Decoded, Code>,
    payloadHash: bytes -> Result<bytes, Code>,
    verify: ProofInput -> Result<VerifiedProof, Code>,
    verifyBatch: seq<ProofInput> -> seq<Result<VerifiedProof, Code>>)

  /** The statement is rebuilt from the election; the submitter supplies the payload alone. */
  function Reconstruct(v: Verifier, d: Decoded): Result<Statement, Code> {
    if d.proof == [] then Err(InvalidData)
    else if |d.proof| > MAX_PROOF_BYTES then Err(ProtocolLimitExceeded)
    else if v.election.suite != v.suite then Err(InvalidData)
    else
      var hash :- v.payloadHash(d.payload);
      Ok(Statement(v.election.terms, v.election.manifestHash, v.election.scope, v.election.registryCommitment, hash))
  }

  function Prepare(v: Verifier, package: bytes): Result<Prepared, Code> {
    var decoded :- v.decode(package);
    var statement :- Reconstruct(v, decoded);
    Ok(Prepared(ProofInput(statement, decoded.proof), decoded.payload))
  }

  /** A result for another statement is refused. */
  function Bind(p: Prepared, proof: VerifiedProof): Result<Ballot, Code> {
    if proof.statement != p.input.statement then Err(InvalidData) else Ok(Ballot(proof, p.payload))
  }

  /** The batch contract: one result per input, in input order, each as if verified alone. */
  ghost predicate BatchContract(v: Verifier) {
    forall ps ::
      && |v.verifyBatch(ps)| == |ps|
      && forall i :: 0 <= i < |ps| ==> v.verifyBatch(ps)[i] == v.verify(ps[i])
  }

  /** One package on its own: decode, verify the proof, bind the statement. */
  function VerifyOne(v: Verifier, package: bytes): Result<Ballot, Code> {
    var prepared :- Prepare(v, package);
    var proof :- v.verify(prepared.input);
    Bind(prepared, proof)
  }

  function PreparedOnly(prepared: seq<Result<Prepared, Code>>): seq<ProofInput> {
    if prepared == [] then []
    else (if prepared[0].Ok? then [prepared[0].value.input] else []) + PreparedOnly(prepared[1..])
  }

  /** Puts the proof results back onto the packages that were prepared. */
  function ZipBack(prepared: seq<Result<Prepared, Code>>, proofs: seq<Result<VerifiedProof, Code>>)
    : seq<Result<Ballot, Code>>
  {
    if prepared == [] then []
    else match prepared[0]
         case Err(code) => [Err(code)] + ZipBack(prepared[1..], proofs)
         case Ok(p) =>
           if proofs == [] then [Err(InvalidData)] + ZipBack(prepared[1..], proofs)
           else
             var first := match proofs[0] case Err(code) => Err(code) case Ok(proof) => Bind(p, proof);
             [first] + ZipBack(prepared[1..], proofs[1..])
  }

  function PrepareAll(v: Verifier, packages: seq<bytes>): (r: seq<Result<Prepared, Code>>)
    ensures |r| == |packages|
  {
    if packages == [] then [] else [Prepare(v, packages[0])] + PrepareAll(v, packages[1..])
  }

  function VerifyBatch(v: Verifier, packages: seq<bytes>): seq<Result<Ballot, Code>> {
    var prepared := PrepareAll(v, packages);
    ZipBack(prepared, v.verifyBatch(PreparedOnly(prepared)))
  }

  function VerifyEach(v: Verifier, packages: seq<bytes>): (r: seq<Result<Ballot, Code>>)
    ensures |r| == |packages|
    ensures forall i :: 0 <= i < |packages| ==> r[i] == VerifyOne(v, packages[i])
  {
    if packages == [] then [] else [VerifyOne(v, packages[0])] + VerifyEach(v, packages[1..])
  }

  lemma {:induction false} ZipBackEach(v: Verifier, packages: seq<bytes>, proofs: seq<Result<VerifiedProof, Code>>)
    requires |proofs| == |PreparedOnly(PrepareAll(v, packages))|
    requires forall i :: 0 <= i < |proofs| ==> proofs[i] == v.verify(PreparedOnly(PrepareAll(v, packages))[i])
    ensures ZipBack(PrepareAll(v, packages), proofs) == VerifyEach(v, packages)
  {
    if packages != [] {
      var prepared := PrepareAll(v, packages);
      assert prepared[1..] == PrepareAll(v, packages[1..]);
      if prepared[0].Ok? {
        var only := PreparedOnly(prepared);
        assert only[1..] == PreparedOnly(prepared[1..]);
        forall i | 0 <= i < |proofs[1..]|
          ensures proofs[1..][i] == v.verify(only[1..][i])
        {
          assert proofs[1..][i] == proofs[i + 1];
        }
        ZipBackEach(v, packages[1..], proofs[1..]);
      } else {
        assert PreparedOnly(prepared) == PreparedOnly(prepared[1..]);
        ZipBackEach(v, packages[1..], proofs);
      }
    }
  }

  /** Filtering out unprepared packages and zipping back loses and shifts nothing. */
  lemma BatchIsPointwise(v: Verifier, packages: seq<bytes>)
    requires BatchContract(v)
    ensures VerifyBatch(v, packages) == VerifyEach(v, packages)
  {
    ZipBackEach(v, packages, v.verifyBatch(PreparedOnly(PrepareAll(v, packages))));
  }

  /** The statement a payload of this election is verified against. */
  function StatementFor(e: Election, payloadHash: bytes): Statement {
    Statement(e.terms, e.manifestHash, e.scope, e.registryCommitment, payloadHash)
  }

  /**
   A package verifies as `b` exactly when it decodes, its proof has 1 to 65,536 bytes, the suites
   agree, and the verifier accepts the proof for the statement made of the election's own terms,
   manifest hash, scope and registry commitment and the hash of the decoded payload, returning that
   statement; `b` is the verifier's result with the decoded payload.
   */
  lemma VerifyOneIff(v: Verifier, package: bytes, b: Ballot)
    ensures VerifyOne(v, package) == Ok(b) <==>
            && v.decode(package).Ok?
            && var d := v.decode(package).value;
               && 0 < |d.proof| <= 65_536 && v.election.suite == v.suite
               && v.payloadHash(d.payload).Ok?
               && var statement := StatementFor(v.election, v.payloadHash(d.payload).value);
                  && v.verify(ProofInput(statement, d.proof)) == Ok(b.proof)
                  && b.proof.statement == statement
                  && b.payload == d.payload
  {
  }

  /** The code a package is refused with, at the first thing that is wrong with it. */
  lemma VerifyOneRefusals(v: Verifier, package: bytes)
    ensures var r := VerifyOne(v, package);
            match v.decode(package)
            case Err(code) => r == Err(code)
            case Ok(d) =>
              if |d.proof| == 0 then r == Err(InvalidData)
              else if |d.proof| > 65_536 then r == Err(ProtocolLimitExceeded)
              else if v.election.suite != v.suite then r == Err(InvalidData)
              else match v.payloadHash(d.payload)
                case Err(code) => r == Err(code)
                case Ok(hash) =>
                  var statement := StatementFor(v.election, hash);
                  match v.verify(ProofInput(statement, d.proof))
                  case Err(code) => r == Err(code)
                  case Ok(proof) => proof.statement != statement ==> r == Err(InvalidData)
  {
  }

  /** A verified ballot carries the election's own manifest hash and registry commitment. */
  lemma VerifiedQuotesElection(v: Verifier, package: bytes)
    requires VerifyOne(v, package).Ok?
    ensures var statement := VerifyOne(v, package).value.proof.statement;
            && statement.manifestHash == v.election.manifestHash
            && statement.registryCommitment == v.election.registryCommitment
  {
    VerifyOneIff(v, package, VerifyOne(v, package).value);
  }

  /** The gate opens exactly for ballots of the frozen election, while it is open or draining after its close. */
  lemma GateIff(lc: Lifecycle, b: Ballot)
    ensures Gate(lc, b).Ok? <==>
            && (lc.state == Open || lc.state == Closed)
            && lc.manifestHash == Some(b.proof.statement.manifestHash)
            && lc.registryCommitment == Some(b.proof.statement.registryCommitment)
    ensures Gate(lc, b).Err? ==>
              Gate(lc, b).error ==
              if lc.state != Open && lc.state != Closed then ElectionNotOpen
              else if lc.manifestHash == None || lc.registryCommitment == None then InvalidLifecycleTransition
              else if lc.manifestHash != Some(b.proof.statement.manifestHash) then WrongManifestHash
              else LifecycleCommitmentMismatch
  {
  }
}
