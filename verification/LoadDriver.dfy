/**
 * The load driver's voter loop: counters, failure records, boundary snapshots and the terminal
 * state. What the outside world does to each voter is a script the loop consumes.
 */
module LoadDriver {
  import opened Bytes
  import opened Arithmetic

  // ---------------------------------------------------------------------
  // Scripts
  // ---------------------------------------------------------------------

  datatype Release =
    | Released
    | Refused(receiptPending: bool, stage: bytes, code: bytes)
    | Broken(code: bytes)

  /** Everything that can happen to one selected credential file; `Some` holds a failure code. */
  datatype Voter = Voter(
    file: bytes,
    stopBefore: bool,
    key: Result<bytes, bytes>,
    decryption: Option<bytes>,
    installation: Option<bytes>,
    eligible: bool,
    selection: Option<bytes>,
    proof: Option<bytes>,
    proofMs: nat,
    stopBeforeSend: bool,
    unreachable: Option<bytes>,
    release: Release,
    submissionMs: nat,
    boundaryWritten: bool)

  datatype Choice = RoundRobin | All(candidate: bytes)
  datatype ChoiceError = EmptyCandidateSet | UnknownCandidate

  function Choose(choice: Choice, candidates: seq<bytes>, offset: nat): Result<bytes, ChoiceError> {
    match choice
    case RoundRobin => if candidates == [] then Err(EmptyCandidateSet) else Ok(candidates[offset % |candidates|])
    case All(c) => if c in candidates then Ok(c) else Err(UnknownCandidate)
  }

  // ---------------------------------------------------------------------
  // Totals and reports
  // ---------------------------------------------------------------------

  datatype Failure = Failure(file: bytes, stage: bytes, code: bytes)

  /** `CountAccumulator`: how often each candidate was added. */
  type Counts = map<bytes, nat>

  function CountOf(counts: Counts, candidate: bytes): nat {
    if candidate in counts then counts[candidate] else 0
  }

  function Add(counts: Counts, candidate: bytes): (r: Counts)
    ensures forall c :: CountOf(r, c) == CountOf(counts, c) + if c == candidate then 1 else 0
  {
    counts[candidate := CountOf(counts, candidate) + 1]
  }

  datatype Totals = Totals(
    keys: set<bytes>, duplicates: nat, loaded: nat, proofs: nat, proofFailures: nat,
    attempts: nat, successes: nat, failed: nat, receipts: nat, verified: nat, unverified: nat,
    proofMs: nat, submissionMs: nat, expected: Counts, observed: Counts, failures: seq<Failure>, completed: nat)

  datatype TerminalState = Running | Complete | Stopped | Failed

  datatype Report = Report(
    requested: nat, totals: Totals, remaining: nat, averageProofMs: nat, averageSubmissionMs: nat, state: TerminalState)

  const NO_TOTALS := Totals({}, 0, 0, 0, 0, 0, 0, 0, 0, 0, 0, 0, 0, map[], map[], [], 0)

  function AverageMs(total: nat, count: nat): nat {
    if count == 0 then 0 else total / count
  }

  /** `average` is the whole milliseconds per item, or 0 without any item. */
  predicate IsAverage(total: nat, count: nat, average: nat) {
    if count == 0 then average == 0 else average * count <= total < average * count + count
  }

  lemma AverageIs(total: nat, count: nat)
    ensures IsAverage(total, count, AverageMs(total, count))
  {
    assert count > 0 ==> total == total / count * count + total % count;
  }

  /** The two averages of a report are over every proof made or failed and over every attempt. */
  predicate AveragesOf(r: Report) {
    && IsAverage(r.totals.proofMs, r.totals.proofs + r.totals.proofFailures, r.averageProofMs)
    && IsAverage(r.totals.submissionMs, r.totals.attempts, r.averageSubmissionMs)
  }

  lemma ReportAverages(requested: nat, t: Totals, state: TerminalState)
    ensures AveragesOf(MakeReport(requested, t, state))
  {
    AverageIs(t.proofMs, t.proofs + t.proofFailures);
    AverageIs(t.submissionMs, t.attempts);
    hide IsAverage, AverageMs;
  }

  function MakeReport(requested: nat, t: Totals, state: TerminalState): Report {
    Report(requested, t, if t.completed <= requested then requested - t.completed else 0,
           AverageMs(t.proofMs, t.proofs + t.proofFailures), AverageMs(t.submissionMs, t.attempts), state)
  }

  function PersistFailure(): Failure {
    Failure([], Ascii("results-persist"), Ascii("RESULTS_PERSIST_FAILED"))
  }

  function Fail(t: Totals, v: Voter, stage: bytes, code: bytes): Totals {
    t.(failures := t.failures + [Failure(v.file, stage, code)], completed := t.completed + 1)
  }

  // ---------------------------------------------------------------------
  // Fates
  // ---------------------------------------------------------------------

  /** How far a voter got. */
  datatype Fate =
    | Unread | Duplicate | Undecrypted | Uninstalled | Ineligible | Unselected | Unproved
    | CutOff | Unreachable | Delivered | Unanswered | BadReceipt | Errored

  function FateOf(v: Voter, keys: set<bytes>): Fate {
    if v.key.Err? then Unread
    else if v.key.value in keys then Duplicate
    else if v.decryption.Some? then Undecrypted
    else if v.installation.Some? then Uninstalled
    else if !v.eligible then Ineligible
    else if v.selection.Some? then Unselected
    else CastFate(v)
  }

  /** The fate of a voter whose selection was accepted. */
  function CastFate(v: Voter): Fate {
    if v.proof.Some? then Unproved
    else if v.stopBeforeSend then CutOff
    else if v.unreachable.Some? then Unreachable
    else match v.release
      case Released => Delivered
      case Refused(pending, _, _) => if pending then Unanswered else BadReceipt
      case Broken(_) => Errored
  }

  function KeysOf(voters: seq<Voter>): set<bytes> {
    set i | 0 <= i < |voters| && voters[i].key.Ok? :: voters[i].key.value
  }

  /** The fates of the voters, each judged against the keys read before it. */
  function Fates(voters: seq<Voter>): (r: seq<Fate>)
    ensures |r| == |voters|
  {
    seq(|voters|, i requires 0 <= i < |voters| => FateOf(voters[i], KeysOf(voters[..i])))
  }

  function Count(fates: seq<Fate>, p: Fate -> bool): nat {
    if fates == [] then 0
    else Count(fates[..|fates| - 1], p) + if p(fates[|fates| - 1]) then 1 else 0
  }

  predicate Loads(f: Fate) {
    !f.Unread? && !f.Duplicate? && !f.Undecrypted?
  }

  predicate Proves(f: Fate) {
    f.CutOff? || Attempts(f)
  }

  predicate Attempts(f: Fate) {
    f.Unreachable? || f.Delivered? || f.Unanswered? || f.BadReceipt? || f.Errored?
  }

  predicate Receives(f: Fate) {
    f.Delivered? || f.BadReceipt?
  }

  predicate Completes(f: Fate) {
    !f.CutOff?
  }

  predicate IsDuplicate(f: Fate) {
    f.Duplicate?
  }

  predicate IsUnproved(f: Fate) {
    f.Unproved?
  }

  predicate IsDelivered(f: Fate) {
    f.Delivered?
  }

  predicate IsBadReceipt(f: Fate) {
    f.BadReceipt?
  }

  predicate FailsSubmission(f: Fate) {
    Attempts(f) && !f.Delivered?
  }

  predicate FailsVoter(f: Fate) {
    Completes(f) && !f.Delivered?
  }

  function CodeOf(failure: Option<bytes>): bytes {
    if failure.Some? then failure.value else []
  }

  /** The stage and code under which a fate is recorded. */
  function StageOf(v: Voter, fate: Fate): (bytes, bytes) {
    match fate
    case Unread => (Ascii("credential-read"), if v.key.Err? then v.key.error else [])
    case Duplicate => (Ascii("credential-duplicate"), Ascii("DUPLICATE_CREDENTIAL"))
    case Undecrypted => (Ascii("credential-decrypt"), CodeOf(v.decryption))
    case Uninstalled => (Ascii("credential-install"), CodeOf(v.installation))
    case Ineligible => (Ascii("eligibility"), Ascii("CREDENTIAL_NOT_ELIGIBLE"))
    case Unselected => (Ascii("selection"), CodeOf(v.selection))
    case Unproved => (Ascii("proof"), CodeOf(v.proof))
    case Unreachable => (Ascii("PRIVATE_TRANSPORT_UNAVAILABLE"), CodeOf(v.unreachable))
    case Unanswered | BadReceipt => if v.release.Refused? then (v.release.stage, v.release.code) else ([], [])
    case Errored => (Ascii("submission"), if v.release.Broken? then v.release.code else [])
    case CutOff | Delivered => ([], [])
  }

  /** The failure record of one voter, if its fate leaves one. */
  function RecordOf(v: Voter, fate: Fate): (r: seq<Failure>)
    ensures |r| == One(FailsVoter(fate))
  {
    if FailsVoter(fate) then [Failure(v.file, StageOf(v, fate).0, StageOf(v, fate).1)] else []
  }

  /** Every counter counts the voters whose fate it is about. */
  ghost predicate Tallies(t: Totals, fates: seq<Fate>) {
    && t.duplicates == Count(fates, IsDuplicate)
    && t.loaded == Count(fates, Loads)
    && t.proofs == Count(fates, Proves)
    && t.proofFailures == Count(fates, IsUnproved)
    && t.attempts == Count(fates, Attempts)
    && t.successes == Count(fates, IsDelivered)
    && t.failed == Count(fates, FailsSubmission)
    && t.receipts == Count(fates, Receives)
    && t.verified == Count(fates, IsDelivered)
    && t.unverified == Count(fates, IsBadReceipt)
    && t.completed == Count(fates, Completes)
    && |t.failures| == Count(fates, FailsVoter)
  }

  lemma CountAppend(fates: seq<Fate>, f: Fate, p: Fate -> bool)
    ensures Count(fates + [f], p) == Count(fates, p) + if p(f) then 1 else 0
  {
    assert (fates + [f])[..|fates|] == fates;
  }

  /** A class of fates split in two is counted in two parts. */
  lemma {:induction false} CountSplit(fates: seq<Fate>, whole: Fate -> bool, p: Fate -> bool, q: Fate -> bool)
    requires forall f :: whole(f) == (p(f) || q(f)) && !(p(f) && q(f))
    ensures Count(fates, whole) == Count(fates, p) + Count(fates, q)
  {
    if fates != [] {
      CountSplit(fates[..|fates| - 1], whole, p, q);
    }
  }

  lemma {:induction false} CountAll(fates: seq<Fate>, p: Fate -> bool)
    requires forall i :: 0 <= i < |fates| ==> p(fates[i])
    ensures Count(fates, p) == |fates|
  {
    if fates != [] {
      CountAll(fates[..|fates| - 1], p);
    }
  }

  /** The books balance. */
  ghost predicate Balanced(t: Totals) {
    && t.attempts == t.successes + t.failed
    && t.receipts == t.verified + t.unverified
    && t.completed == t.successes + |t.failures|
  }

  lemma TalliedBalances(t: Totals, fates: seq<Fate>)
    requires Tallies(t, fates)
    ensures Balanced(t)
  {
    CountSplit(fates, Attempts, IsDelivered, FailsSubmission);
    CountSplit(fates, Receives, IsDelivered, IsBadReceipt);
    CountSplit(fates, Completes, IsDelivered, FailsVoter);
  }

  // ---------------------------------------------------------------------
  // One voter
  // ---------------------------------------------------------------------

  function One(b: bool): nat {
    if b then 1 else 0
  }

  /** How one voter's fate moves the totals. */
  ghost predicate Served(t: Totals, t': Totals, v: Voter, candidate: bytes, fate: Fate) {
    && t'.keys == t.keys + (if v.key.Ok? then {v.key.value} else {})
    && t'.duplicates == t.duplicates + One(IsDuplicate(fate))
    && t'.loaded == t.loaded + One(Loads(fate))
    && t'.proofs == t.proofs + One(Proves(fate))
    && t'.proofFailures == t.proofFailures + One(IsUnproved(fate))
    && t'.attempts == t.attempts + One(Attempts(fate))
    && t'.successes == t.successes + One(IsDelivered(fate))
    && t'.failed == t.failed + One(FailsSubmission(fate))
    && t'.receipts == t.receipts + One(Receives(fate))
    && t'.verified == t.verified + One(IsDelivered(fate))
    && t'.unverified == t.unverified + One(IsBadReceipt(fate))
    && t'.completed == t.completed + One(Completes(fate))
    && t'.failures == t.failures + RecordOf(v, fate)
    && t'.proofMs == t.proofMs + (if Proves(fate) || IsUnproved(fate) then v.proofMs else 0)
    && t'.submissionMs == t.submissionMs + (if Attempts(fate) && !fate.Unreachable? then v.submissionMs else 0)
    && t'.expected == Add(t.expected, candidate)
    && t'.observed == (if fate.Delivered? then Add(t.observed, candidate) else t.observed)
  }

  /** The body of the loop for one voter; `stopped` when it was cut off before sending. */
  method ServeVoter(t: Totals, v: Voter, candidate: bytes) returns (t': Totals, stopped: bool)
    ensures Served(t, t', v, candidate, FateOf(v, t.keys))
    ensures stopped == FateOf(v, t.keys).CutOff?
  {
    hide Add;
    stopped := false;
    var t1 := t.(expected := Add(t.expected, candidate));
    var t2, admitted := AdmitVoter(t1, v);
    if !admitted {
      t' := t2;
      return;
    }
    t', stopped := CastBallot(t2, v, candidate);
  }

  /** Credential, eligibility and selection. */
  method AdmitVoter(t: Totals, v: Voter) returns (t': Totals, admitted: bool)
    ensures var fate := FateOf(v, t.keys);
            && admitted == (Proves(fate) || IsUnproved(fate))
            && t'.keys == t.keys + (if v.key.Ok? then {v.key.value} else {})
            && t'.failures == t.failures + (if admitted then [] else RecordOf(v, fate))
            && t'.completed == t.completed + One(!admitted)
            && t' == t.(keys := t'.keys, duplicates := t.duplicates + One(IsDuplicate(fate)), loaded := t.loaded + One(Loads(fate)),
                        failures := t'.failures, completed := t'.completed)
  {
    hide Ascii;
    admitted := false;
    t' := t;
    if v.key.Err? {
      t' := Fail(t', v, Ascii("credential-read"), v.key.error);
      return;
    }
    t' := t'.(keys := t'.keys + {v.key.value});
    if v.key.value in t.keys {
      t' := Fail(t'.(duplicates := t'.duplicates + 1), v, Ascii("credential-duplicate"), Ascii("DUPLICATE_CREDENTIAL"));
      return;
    }
    if v.decryption.Some? {
      t' := Fail(t', v, Ascii("credential-decrypt"), v.decryption.value);
      return;
    }
    t' := t'.(loaded := t'.loaded + 1);
    if v.installation.Some? {
      t' := Fail(t', v, Ascii("credential-install"), v.installation.value);
      return;
    }
    if !v.eligible {
      t' := Fail(t', v, Ascii("eligibility"), Ascii("CREDENTIAL_NOT_ELIGIBLE"));
      return;
    }
    if v.selection.Some? {
      t' := Fail(t', v, Ascii("selection"), v.selection.value);
      return;
    }
    admitted := true;
  }

  /** The proof, the last chance to stop, and the submission. */
  method CastBallot(t: Totals, v: Voter, candidate: bytes) returns (t': Totals, stopped: bool)
    ensures var fate := CastFate(v);
            && stopped == fate.CutOff?
            && t' == t.(
                 proofMs := t.proofMs + v.proofMs, proofs := t.proofs + One(Proves(fate)),
                 proofFailures := t.proofFailures + One(IsUnproved(fate)), attempts := t.attempts + One(Attempts(fate)),
                 successes := t.successes + One(IsDelivered(fate)), verified := t.verified + One(IsDelivered(fate)),
                 failed := t.failed + One(FailsSubmission(fate)), receipts := t.receipts + One(Receives(fate)),
                 unverified := t.unverified + One(IsBadReceipt(fate)),
                 submissionMs := t.submissionMs + (if Attempts(fate) && !fate.Unreachable? then v.submissionMs else 0),
                 observed := (if fate.Delivered? then Add(t.observed, candidate) else t.observed),
                 failures := t.failures + RecordOf(v, fate), completed := t.completed + One(Completes(fate)))
  {
    hide Ascii, Add;
    stopped := false;
    t' := t.(proofMs := t.proofMs + v.proofMs);
    if v.proof.Some? {
      t' := Fail(t'.(proofFailures := t'.proofFailures + 1), v, Ascii("proof"), v.proof.value);
      return;
    }
    t' := t'.(proofs := t'.proofs + 1);
    if v.stopBeforeSend {
      stopped := true;
      return;
    }
    t' := t'.(attempts := t'.attempts + 1);
    if v.unreachable.Some? {
      t' := Fail(t'.(failed := t'.failed + 1), v, Ascii("PRIVATE_TRANSPORT_UNAVAILABLE"), v.unreachable.value);
      return;
    }
    t' := ReleaseBallot(t', v, candidate);
  }

  /** The single invocation of the carrier and what it reports. */
  method ReleaseBallot(t: Totals, v: Voter, candidate: bytes) returns (t': Totals)
    requires v.proof.None? && !v.stopBeforeSend && v.unreachable.None?
    ensures var fate := CastFate(v);
            t' == t.(
              submissionMs := t.submissionMs + v.submissionMs, successes := t.successes + One(IsDelivered(fate)),
              verified := t.verified + One(IsDelivered(fate)), failed := t.failed + One(FailsSubmission(fate)),
              receipts := t.receipts + One(Receives(fate)), unverified := t.unverified + One(IsBadReceipt(fate)),
              observed := (if fate.Delivered? then Add(t.observed, candidate) else t.observed),
              failures := t.failures + RecordOf(v, fate), completed := t.completed + 1)
  {
    hide Ascii, Add;
    t' := t.(submissionMs := t.submissionMs + v.submissionMs);
    match v.release {
      case Released =>
        t' := t'.(successes := t'.successes + 1, receipts := t'.receipts + 1, verified := t'.verified + 1,
                  observed := Add(t'.observed, candidate));
      case Refused(pending, stage, code) =>
        t' := t'.(failed := t'.failed + 1);
        if !pending {
          t' := t'.(receipts := t'.receipts + 1, unverified := t'.unverified + 1);
        }
        t' := t'.(failures := t'.failures + [Failure(v.file, stage, code)]);
      case Broken(code) =>
        t' := t'.(failed := t'.failed + 1, failures := t'.failures + [Failure(v.file, Ascii("submission"), code)]);
    }
    t' := t'.(completed := t'.completed + 1);
  }

  lemma ServedTallies(t: Totals, t': Totals, v: Voter, candidate: bytes, fates: seq<Fate>, fate: Fate)
    requires Tallies(t, fates) && Served(t, t', v, candidate, fate)
    ensures Tallies(t', fates + [fate])
  {
    hide Count, Add;
    CountAppend(fates, fate, IsDuplicate);
    CountAppend(fates, fate, Loads);
    CountAppend(fates, fate, Proves);
    CountAppend(fates, fate, IsUnproved);
    CountAppend(fates, fate, Attempts);
    CountAppend(fates, fate, IsDelivered);
    CountAppend(fates, fate, FailsSubmission);
    CountAppend(fates, fate, Receives);
    CountAppend(fates, fate, IsBadReceipt);
    CountAppend(fates, fate, Completes);
    CountAppend(fates, fate, FailsVoter);
  }

  lemma KeysAppend(voters: seq<Voter>, i: nat)
    requires i < |voters|
    ensures KeysOf(voters[..i + 1]) == KeysOf(voters[..i]) + if voters[i].key.Ok? then {voters[i].key.value} else {}
  {
    var more, less := voters[..i + 1], voters[..i];
    assert more[i] == voters[i];
    assert forall j :: 0 <= j < i ==> more[j] == voters[j] && less[j] == voters[j];
  }

  lemma FatesAppend(voters: seq<Voter>, i: nat)
    requires i < |voters|
    ensures Fates(voters[..i + 1]) == Fates(voters[..i]) + [FateOf(voters[i], KeysOf(voters[..i]))]
  {
    hide FateOf, KeysOf;
    var more, less := voters[..i + 1], voters[..i];
    forall j | 0 <= j < i ensures more[..j] == less[..j] && more[j] == less[j] {
    }
    assert more[..i] == less && more[i] == voters[i];
  }

  // ---------------------------------------------------------------------
  // The run
  // ---------------------------------------------------------------------

  function FateAt(voters: seq<Voter>, i: nat): Fate
    requires i < |voters|
  {
    FateOf(voters[i], KeysOf(voters[..i]))
  }

  /** The loop goes on after voter `i`: no stop was requested and its boundary was recorded. */
  predicate Passes(voters: seq<Voter>, i: nat, persist: bool)
    requires i < |voters|
  {
    !voters[i].stopBefore && !FateAt(voters, i).CutOff? && (persist ==> voters[i].boundaryWritten)
  }

  ghost predicate AllPass(voters: seq<Voter>, n: nat, persist: bool)
    requires n <= |voters|
  {
    forall i :: 0 <= i < n ==> Passes(voters, i, persist)
  }

  /** The first voter at which the loop breaks, or the number of voters. */
  function BreakPoint(voters: seq<Voter>, from: nat, persist: bool): (k: nat)
    requires from <= |voters|
    ensures from <= k <= |voters|
    ensures forall i :: from <= i < k ==> Passes(voters, i, persist)
    ensures k < |voters| ==> !Passes(voters, k, persist)
    decreases |voters| - from
  {
    if from == |voters| || !Passes(voters, from, persist) then from else BreakPoint(voters, from + 1, persist)
  }

  /** How many voters the loop starts. */
  function Started(voters: seq<Voter>, persist: bool): (n: nat)
    ensures n <= |voters|
  {
    var k := BreakPoint(voters, 0, persist);
    if k == |voters| || voters[k].stopBefore then k else k + 1
  }

  ghost predicate Chosen(choice: Choice, candidates: seq<bytes>, n: nat, expected: Counts) {
    forall c :: CountOf(expected, c) == Choosers(choice, candidates, n, c)
  }

  /** How many of the first `n` voters are assigned candidate `c`. */
  function Choosers(choice: Choice, candidates: seq<bytes>, n: nat, c: bytes): nat {
    if n == 0 then 0
    else Choosers(choice, candidates, n - 1, c) + One(Choose(choice, candidates, n - 1) == Ok(c))
  }

  /** How many of the first `n` voters delivered a ballot for candidate `c`. */
  function Deliveries(voters: seq<Voter>, choice: Choice, candidates: seq<bytes>, n: nat, c: bytes): nat
    requires n <= |voters|
  {
    if n == 0 then 0
    else Deliveries(voters, choice, candidates, n - 1, c)
         + One(Accepted(voters, n - 1) && Choose(choice, candidates, n - 1) == Ok(c))
  }

  /** The failure records of the first `n` voters, in order. */
  function Records(voters: seq<Voter>, n: nat): seq<Failure>
    requires n <= |voters|
  {
    if n == 0 then [] else Records(voters, n - 1) + RecordOf(voters[n - 1], FateAt(voters, n - 1))
  }

  /** The time the first `n` voters spent on proofs, failed ones included. */
  function ProofTime(voters: seq<Voter>, n: nat): nat
    requires n <= |voters|
  {
    if n == 0 then 0 else ProofTime(voters, n - 1) + if Ready(voters, n - 1) then voters[n - 1].proofMs else 0
  }

  /** The time the first `n` voters spent in the carrier. */
  function SubmissionTime(voters: seq<Voter>, n: nat): nat
    requires n <= |voters|
  {
    if n == 0 then 0
    else SubmissionTime(voters, n - 1)
         + if Sent(voters, n - 1) && voters[n - 1].unreachable.None? then voters[n - 1].submissionMs else 0
  }

  ghost predicate Observed(voters: seq<Voter>, choice: Choice, candidates: seq<bytes>, n: nat, observed: Counts)
    requires n <= |voters|
  {
    forall c :: CountOf(observed, c) == Deliveries(voters, choice, candidates, n, c)
  }

  /** What holds after `i` voters have been served. */
  ghost predicate Progress(voters: seq<Voter>, choice: Choice, candidates: seq<bytes>, i: nat, t: Totals) {
    && i <= |voters|
    && t.keys == KeysOf(voters[..i])
    && Tallies(t, Fates(voters[..i]))
    && Chosen(choice, candidates, i, t.expected)
    && Observed(voters, choice, candidates, i, t.observed)
    && t.failures == Records(voters, i)
    && t.proofMs == ProofTime(voters, i) && t.submissionMs == SubmissionTime(voters, i)
  }

  /** Reports as the loop sees them at a boundary. */
  ghost predicate Boundary(voters: seq<Voter>, choice: Choice, candidates: seq<bytes>, n: nat, r: Report) {
    && 0 < n <= |voters|
    && r.requested == |voters| && r.state == Running
    && r.totals.completed == n && r.remaining == |voters| - n
    && Progress(voters, choice, candidates, n, r.totals) && Balanced(r.totals) && AveragesOf(r)
  }

  lemma StartProgress(voters: seq<Voter>, choice: Choice, candidates: seq<bytes>)
    ensures Progress(voters, choice, candidates, 0, NO_TOTALS)
  {
    assert voters[..0] == [];
    assert Fates([]) == [];
  }

  lemma MoreProgress(
    voters: seq<Voter>, choice: Choice, candidates: seq<bytes>, i: nat, t: Totals, t': Totals, candidate: bytes)
    requires i < |voters| && Progress(voters, choice, candidates, i, t)
    requires Choose(choice, candidates, i) == Ok(candidate)
    requires Served(t, t', voters[i], candidate, FateAt(voters, i))
    ensures Progress(voters, choice, candidates, i + 1, t')
    ensures t'.completed == t.completed + One(!FateAt(voters, i).CutOff?)
  {
    hide Tallies, FateOf, KeysOf, Choose, Fates, RecordOf, Ready, Sent, Accepted;
    CastClasses(voters, i);
    KeysAppend(voters, i);
    FatesAppend(voters, i);
    ServedTallies(t, t', voters[i], candidate, Fates(voters[..i]), FateAt(voters, i));
  }

  /** What a finished run reports. */
  ghost predicate Finished(
    voters: seq<Voter>, choice: Choice, candidates: seq<bytes>, persist: bool, finalWritten: bool, r: Report)
  {
    var n, k := Started(voters, persist), BreakPoint(voters, 0, persist);
    var lost := persist && (!finalWritten || (k < |voters| && !voters[k].stopBefore && !FateAt(voters, k).CutOff?));
    && r.requested == |voters| && r.remaining == |voters| - r.totals.completed
    && r.totals.completed <= |voters| && AveragesOf(r)
    && r.state == (if lost then Failed else if k < |voters| then Stopped else Complete)
    && (lost ==> r.totals.failures != [] && r.totals.failures[|r.totals.failures| - 1] == PersistFailure())
    && var perVoter := if lost then r.totals.failures[..|r.totals.failures| - 1] else r.totals.failures;
       && Progress(voters, choice, candidates, n, r.totals.(failures := perVoter))
       && Balanced(r.totals.(failures := perVoter))
  }

  /** The loop: serve voters until they are exhausted, a stop is seen, or a boundary is lost. */
  method ServeVoters(voters: seq<Voter>, candidates: seq<bytes>, choice: Choice, persist: bool)
    returns (outcome: Result<(Totals, TerminalState), ChoiceError>, snapshots: seq<Report>)
    ensures outcome.Err? <==> NoCandidate(choice, candidates) && Started(voters, persist) > 0
    ensures outcome.Err? ==> snapshots == []
    ensures outcome.Err? ==> outcome.error == if choice.RoundRobin? then EmptyCandidateSet else UnknownCandidate
    ensures outcome.Ok? ==> |snapshots| == outcome.value.0.completed
    ensures forall i :: 0 <= i < |snapshots| ==> Boundary(voters, choice, candidates, i + 1, snapshots[i])
    ensures outcome.Ok? ==>
              var (t, state) := outcome.value;
              var k := BreakPoint(voters, 0, persist);
              && Progress(voters, choice, candidates, Started(voters, persist), t)
              && state == (if k == |voters| then Running
                           else if voters[k].stopBefore || FateAt(voters, k).CutOff? then Stopped else Failed)
              && (state == Running ==> t.completed == |voters|) && t.completed <= |voters|
              && (state == Failed ==> persist)
  {
    hide Tallies, Balanced, Fates, KeysOf, FateOf, Served, Chosen, Observed, Records, AveragesOf, NoCandidate,
         ProofTime, SubmissionTime;
    snapshots := [];
    var t := NO_TOTALS;
    StartProgress(voters, choice, candidates);
    ghost var k := BreakPoint(voters, 0, persist);
    for i := 0 to |voters|
      invariant Progress(voters, choice, candidates, i, t) && t.completed == i
      invariant i <= k
      invariant i > 0 ==> !NoCandidate(choice, candidates)
      invariant |snapshots| == i
      invariant forall j :: 0 <= j < |snapshots| ==> Boundary(voters, choice, candidates, j + 1, snapshots[j])
    {
      if voters[i].stopBefore {
        assert !Passes(voters, i, persist);
        return Ok((t, Stopped)), snapshots;
      }
      var candidate := Choose(choice, candidates, i);
      ChoiceFails(choice, candidates, i);
      assert Started(voters, persist) > 0;
      if candidate.Err? {
        return Err(candidate.error), snapshots;
      }
      var t', stopped := ServeVoter(t, voters[i], candidate.value);
      MoreProgress(voters, choice, candidates, i, t, t', candidate.value);
      t := t';
      if stopped {
        assert !Passes(voters, i, persist);
        return Ok((t, Stopped)), snapshots;
      }
      TalliedBalances(t, Fates(voters[..i + 1]));
      ReportAverages(|voters|, t, Running);
      snapshots := snapshots + [MakeReport(|voters|, t, Running)];
      if persist && !voters[i].boundaryWritten {
        assert !Passes(voters, i, persist);
        return Ok((t, Failed)), snapshots;
      }
      assert Passes(voters, i, persist);
    }
    return Ok((t, Running)), snapshots;
  }

  /** No voter can be given a candidate. */
  predicate NoCandidate(choice: Choice, candidates: seq<bytes>) {
    match choice
    case RoundRobin => |candidates| == 0
    case All(c) => c !in candidates
  }

  lemma ChoiceFails(choice: Choice, candidates: seq<bytes>, offset: nat)
    ensures Choose(choice, candidates, offset).Err? <==> NoCandidate(choice, candidates)
    ensures NoCandidate(choice, candidates) ==>
              Choose(choice, candidates, offset).error == if choice.RoundRobin? then EmptyCandidateSet else UnknownCandidate
  {
  }

  /** The run: the loop, the terminal state, and the authoritative last write. */
  method RunLoadDriver(voters: seq<Voter>, candidates: seq<bytes>, choice: Choice, persist: bool, finalWritten: bool)
    returns (report: Result<Report, ChoiceError>, snapshots: seq<Report>)
    ensures report.Err? <==> NoCandidate(choice, candidates) && Started(voters, persist) > 0
    ensures report.Err? ==> snapshots == []
    ensures report.Err? ==> report.error == if choice.RoundRobin? then EmptyCandidateSet else UnknownCandidate
    ensures report.Ok? ==> |snapshots| == report.value.totals.completed
    ensures forall i :: 0 <= i < |snapshots| ==> Boundary(voters, choice, candidates, i + 1, snapshots[i])
    ensures report.Ok? ==> Finished(voters, choice, candidates, persist, finalWritten, report.value)
  {
    hide Boundary, PersistFailure, Tallies, Balanced, Fates, KeysOf, FateOf, Chosen, Choose, Observed, Records, AveragesOf,
         NoCandidate, ProofTime, SubmissionTime;
    var outcome;
    outcome, snapshots := ServeVoters(voters, candidates, choice, persist);
    if outcome.Err? {
      return Err(outcome.error), snapshots;
    }
    var (t, state) := outcome.value;
    TalliedBalances(t, Fates(voters[..Started(voters, persist)]));
    var recorded := t;
    if state == Failed {
      recorded := t.(failures := t.failures + [PersistFailure()]);
    }
    if state == Running && t.completed == |voters| {
      state := Complete;
    } else if state == Running {
      state, recorded := Failed, t.(failures := t.failures + [PersistFailure()]);
    }
    if persist && !finalWritten && state != Failed {
      state := Failed;
      recorded := t.(failures := t.failures + [PersistFailure()]);
    }
    ReportAverages(|voters|, recorded, state);
    assert state == Failed ==> recorded.failures[..|recorded.failures| - 1] == t.failures;
    return Ok(MakeReport(|voters|, recorded, state)), snapshots;
  }

  // ---------------------------------------------------------------------
  // Theorems
  // ---------------------------------------------------------------------

  /** COMPLETE is reported exactly when every voter passed its boundary and any final write succeeded. */
  lemma CompleteIff(voters: seq<Voter>, choice: Choice, candidates: seq<bytes>, persist: bool, finalWritten: bool, r: Report)
    requires Finished(voters, choice, candidates, persist, finalWritten, r)
    ensures r.state == Complete <==> AllPass(voters, |voters|, persist) && (persist ==> finalWritten)
    ensures r.state == Complete ==> r.totals.completed == |voters| && r.remaining == 0
    ensures r.state != Running
  {
    hide Progress, Balanced, PersistFailure;
    if r.state == Complete {
      forall i | 0 <= i < |voters| ensures !FateAt(voters, i).CutOff? {
        assert Passes(voters, i, persist);
      }
      CompletedAll(voters, choice, candidates, r.totals);
    }
  }

  lemma CompletedAll(voters: seq<Voter>, choice: Choice, candidates: seq<bytes>, t: Totals)
    requires Progress(voters, choice, candidates, |voters|, t)
    requires forall i :: 0 <= i < |voters| ==> !FateAt(voters, i).CutOff?
    ensures t.completed == |voters|
  {
    hide FateOf, KeysOf, Chosen;
    assert voters[..|voters|] == voters;
    forall i | 0 <= i < |voters| ensures Completes(Fates(voters)[i]) {
      assert Fates(voters)[i] == FateAt(voters, i);
    }
    CountAll(Fates(voters), Completes);
  }

  /** The final books balance, up to the one record a lost results file leaves. */
  lemma FinalBooks(voters: seq<Voter>, choice: Choice, candidates: seq<bytes>, persist: bool, finalWritten: bool, r: Report)
    requires Finished(voters, choice, candidates, persist, finalWritten, r)
    ensures r.totals.attempts == r.totals.successes + r.totals.failed
    ensures r.totals.receipts == r.totals.verified + r.totals.unverified
    ensures r.totals.completed + One(r.state == Failed) == r.totals.successes + |r.totals.failures|
    ensures r.state == Failed ==> persist
    ensures r.state == Failed ==>
              && r.totals.failures != []
              && r.totals.failures[|r.totals.failures| - 1] == Failure([], Ascii("results-persist"), Ascii("RESULTS_PERSIST_FAILED"))
  {
    hide Progress, Ascii, AveragesOf;
  }

  // ---------------------------------------------------------------------
  // The counters and records, read off the script
  // ---------------------------------------------------------------------

  /** The credential of voter `i` was readable and no earlier voter had it. */
  predicate OwnCredential(voters: seq<Voter>, i: nat) {
    i < |voters| && voters[i].key.Ok? && forall j :: 0 <= j < i ==> voters[j].key != voters[i].key
  }

  predicate Repeated(voters: seq<Voter>, i: nat) {
    i < |voters| && voters[i].key.Ok? && exists j :: 0 <= j < i && voters[j].key == voters[i].key
  }

  predicate Decrypted(voters: seq<Voter>, i: nat) {
    OwnCredential(voters, i) && voters[i].decryption.None?
  }

  /** Voter `i` got as far as making a proof. */
  predicate Ready(voters: seq<Voter>, i: nat) {
    Decrypted(voters, i) && voters[i].installation.None? && voters[i].eligible && voters[i].selection.None?
  }

  predicate ProofMade(voters: seq<Voter>, i: nat) {
    Ready(voters, i) && voters[i].proof.None?
  }

  predicate ProofLost(voters: seq<Voter>, i: nat) {
    Ready(voters, i) && voters[i].proof.Some?
  }

  /** The run was stopped between voter `i`'s proof and its submission. */
  predicate Withheld(voters: seq<Voter>, i: nat) {
    ProofMade(voters, i) && voters[i].stopBeforeSend
  }

  predicate Sent(voters: seq<Voter>, i: nat) {
    ProofMade(voters, i) && !voters[i].stopBeforeSend
  }

  predicate Accepted(voters: seq<Voter>, i: nat) {
    Sent(voters, i) && voters[i].unreachable.None? && voters[i].release.Released?
  }

  /** Voter `i` got a receipt that did not verify. */
  predicate Mistrusted(voters: seq<Voter>, i: nat) {
    Sent(voters, i) && voters[i].unreachable.None? && voters[i].release.Refused? && !voters[i].release.receiptPending
  }

  lemma KeyRead(voters: seq<Voter>, i: nat)
    requires i < |voters| && voters[i].key.Ok?
    ensures voters[i].key.value in KeysOf(voters[..i]) <==> Repeated(voters, i)
    ensures Repeated(voters, i) != OwnCredential(voters, i)
  {
    var less := voters[..i];
    assert forall j :: 0 <= j < i ==> less[j] == voters[j];
    if Repeated(voters, i) {
      var j :| 0 <= j < i && voters[j].key == voters[i].key;
      assert less[j].key.value == voters[i].key.value;
    }
  }

  /** Each class of fates is what the script says of the voter. */
  lemma FateClasses(voters: seq<Voter>, i: nat)
    requires i < |voters|
    ensures var fate := FateAt(voters, i);
            && (IsDuplicate(fate) <==> Repeated(voters, i))
            && (Loads(fate) <==> Decrypted(voters, i))
            && (Proves(fate) <==> ProofMade(voters, i))
            && (IsUnproved(fate) <==> ProofLost(voters, i))
            && (fate.CutOff? <==> Withheld(voters, i))
            && (Attempts(fate) <==> Sent(voters, i))
            && (IsDelivered(fate) <==> Accepted(voters, i))
            && (IsBadReceipt(fate) <==> Mistrusted(voters, i))
            && (fate.Unreachable? <==> Sent(voters, i) && voters[i].unreachable.Some?)
  {
    if voters[i].key.Ok? {
      KeyRead(voters, i);
    }
    hide KeysOf, Repeated, OwnCredential;
    if voters[i].key.Err? {
      assert !Repeated(voters, i) && !OwnCredential(voters, i) by { Unreadable(voters, i); }
    }
  }

  lemma CastClasses(voters: seq<Voter>, i: nat)
    requires i < |voters|
    ensures var fate := FateAt(voters, i);
            && (Proves(fate) || IsUnproved(fate) <==> Ready(voters, i))
            && (Attempts(fate) && !fate.Unreachable? <==> Sent(voters, i) && voters[i].unreachable.None?)
            && (fate.Delivered? <==> Accepted(voters, i))
  {
    hide FateAt, Decrypted;
    FateClasses(voters, i);
  }

  lemma Unreadable(voters: seq<Voter>, i: nat)
    requires i < |voters| && voters[i].key.Err?
    ensures !Repeated(voters, i) && !OwnCredential(voters, i)
  {
  }

  /** How many of the first `n` numbers satisfy `p`. */
  function HowMany(n: nat, p: nat -> bool): nat {
    if n == 0 then 0 else HowMany(n - 1, p) + One(p(n - 1))
  }

  lemma {:induction false} CountIsHowMany(voters: seq<Voter>, n: nat, p: Fate -> bool, q: nat -> bool)
    requires n <= |voters| && forall i :: 0 <= i < n ==> (p(FateAt(voters, i)) <==> q(i))
    ensures Count(Fates(voters[..n]), p) == HowMany(n, q)
  {
    hide FateAt, FateOf, KeysOf, Fates, Count;
    if n > 0 {
      CountIsHowMany(voters, n - 1, p, q);
      FatesAppend(voters, n - 1);
      assert FateAt(voters, n - 1) == FateOf(voters[n - 1], KeysOf(voters[..n - 1])) by { FateAtIs(voters, n - 1); }
      CountAppend(Fates(voters[..n - 1]), FateAt(voters, n - 1), p);
    } else {
      assert voters[..0] == [];
      NothingCounted(p);
    }
  }

  lemma NothingCounted(p: Fate -> bool)
    ensures Count(Fates([]), p) == 0
  {
  }

  lemma FateAtIs(voters: seq<Voter>, i: nat)
    requires i < |voters|
    ensures FateAt(voters, i) == FateOf(voters[i], KeysOf(voters[..i]))
  {
  }

  /** Every counter of a report, as the number of voters of whom the script says so. */
  lemma CountersMean(voters: seq<Voter>, choice: Choice, candidates: seq<bytes>, n: nat, t: Totals)
    requires Progress(voters, choice, candidates, n, t)
    ensures t.duplicates == HowMany(n, (i: nat) => Repeated(voters, i))
    ensures t.loaded == HowMany(n, (i: nat) => Decrypted(voters, i))
    ensures t.proofs == HowMany(n, (i: nat) => ProofMade(voters, i))
    ensures t.proofFailures == HowMany(n, (i: nat) => ProofLost(voters, i))
    ensures t.attempts == HowMany(n, (i: nat) => Sent(voters, i))
    ensures t.successes == t.verified == HowMany(n, (i: nat) => Accepted(voters, i))
    ensures t.failed == HowMany(n, (i: nat) => Sent(voters, i) && !Accepted(voters, i))
    ensures t.receipts == HowMany(n, (i: nat) => Accepted(voters, i) || Mistrusted(voters, i))
    ensures t.unverified == HowMany(n, (i: nat) => Mistrusted(voters, i))
    ensures t.completed == HowMany(n, (i: nat) => !Withheld(voters, i))
  {
    hide FateAt, Count, Fates, HowMany, Repeated, Decrypted, ProofMade, ProofLost, Sent, Accepted, Mistrusted, Withheld,
         Chosen, Observed, Records, KeysOf, ProofTime, SubmissionTime;
    forall i | 0 <= i < n
      ensures var fate := FateAt(voters, i);
              && IsDuplicate(fate) == Repeated(voters, i) && Loads(fate) == Decrypted(voters, i)
              && Proves(fate) == ProofMade(voters, i) && IsUnproved(fate) == ProofLost(voters, i)
              && fate.CutOff? == Withheld(voters, i) && Attempts(fate) == Sent(voters, i)
              && IsDelivered(fate) == Accepted(voters, i) && IsBadReceipt(fate) == Mistrusted(voters, i)
    {
      FateClasses(voters, i);
    }
    CountIsHowMany(voters, n, IsDuplicate, (i: nat) => Repeated(voters, i));
    CountIsHowMany(voters, n, Loads, (i: nat) => Decrypted(voters, i));
    CountIsHowMany(voters, n, Proves, (i: nat) => ProofMade(voters, i));
    CountIsHowMany(voters, n, IsUnproved, (i: nat) => ProofLost(voters, i));
    CountIsHowMany(voters, n, Attempts, (i: nat) => Sent(voters, i));
    CountIsHowMany(voters, n, IsDelivered, (i: nat) => Accepted(voters, i));
    CountIsHowMany(voters, n, FailsSubmission, (i: nat) => Sent(voters, i) && !Accepted(voters, i));
    CountIsHowMany(voters, n, Receives, (i: nat) => Accepted(voters, i) || Mistrusted(voters, i));
    CountIsHowMany(voters, n, IsBadReceipt, (i: nat) => Mistrusted(voters, i));
    CountIsHowMany(voters, n, Completes, (i: nat) => !Withheld(voters, i));
  }

  /** The stage and code on the record of a voter, at the first thing that went wrong. */
  lemma RecordNames(voters: seq<Voter>, i: nat)
    requires i < |voters|
    ensures var v := voters[i];
            var r := RecordOf(v, FateAt(voters, i));
            && (v.key.Err? ==> r == [Failure(v.file, Ascii("credential-read"), v.key.error)])
            && (Repeated(voters, i) ==> r == [Failure(v.file, Ascii("credential-duplicate"), Ascii("DUPLICATE_CREDENTIAL"))])
            && (OwnCredential(voters, i) && v.decryption.Some? ==>
                  r == [Failure(v.file, Ascii("credential-decrypt"), v.decryption.value)])
            && (Decrypted(voters, i) && v.installation.Some? ==>
                  r == [Failure(v.file, Ascii("credential-install"), v.installation.value)])
            && (Decrypted(voters, i) && v.installation.None? && !v.eligible ==>
                  r == [Failure(v.file, Ascii("eligibility"), Ascii("CREDENTIAL_NOT_ELIGIBLE"))])
            && (Decrypted(voters, i) && v.installation.None? && v.eligible && v.selection.Some? ==>
                  r == [Failure(v.file, Ascii("selection"), v.selection.value)])
            && (ProofLost(voters, i) ==> r == [Failure(v.file, Ascii("proof"), v.proof.value)])
            && (Withheld(voters, i) || Accepted(voters, i) ==> r == [])
            && (Sent(voters, i) && v.unreachable.Some? ==>
                  r == [Failure(v.file, Ascii("PRIVATE_TRANSPORT_UNAVAILABLE"), v.unreachable.value)])
            && (Sent(voters, i) && v.unreachable.None? && v.release.Refused? ==>
                  r == [Failure(v.file, v.release.stage, v.release.code)])
            && (Sent(voters, i) && v.unreachable.None? && v.release.Broken? ==>
                  r == [Failure(v.file, Ascii("submission"), v.release.code)])
  {
    hide KeysOf, Ascii;
    if voters[i].key.Ok? {
      KeyRead(voters, i);
    }
    hide Repeated, OwnCredential;
    if voters[i].key.Err? {
      assert !Repeated(voters, i) && !OwnCredential(voters, i) by { Unreadable(voters, i); }
    }
  }

  ghost predicate DistinctCandidates(candidates: seq<bytes>) {
    forall i, j :: 0 <= i < j < |candidates| ==> candidates[i] != candidates[j]
  }

  /** One share per full round, and one more while the last round reaches `j`. */
  function Share(n: nat, m: nat, j: nat): nat
    requires m > 0
  {
    n / m + One(j < n % m)
  }

  lemma ShareStep(n: nat, m: nat, j: nat)
    requires j < m
    ensures Share(n + 1, m, j) == Share(n, m, j) + One(n % m == j)
  {
    NextRemainder(n, m);
  }

  /** Round robin gives every candidate its share. */
  lemma {:induction false} RoundRobinShare(candidates: seq<bytes>, n: nat, j: nat)
    requires DistinctCandidates(candidates) && j < |candidates|
    ensures Choosers(RoundRobin, candidates, n, candidates[j]) == Share(n, |candidates|, j)
  {
    var m := |candidates|;
    if n > 0 {
      RoundRobinShare(candidates, n - 1, j);
      ChosenInTurn(candidates, n - 1, j);
      ShareStep(n - 1, m, j);
      hide Choose, DistinctCandidates, Share;
    } else {
      assert Share(0, m, j) == 0 by { FirstShare(m, j); }
    }
  }

  lemma FirstShare(m: nat, j: nat)
    requires j < m
    ensures Share(0, m, j) == 0
  {
    DivIs(0, m, 0);
  }

  lemma ChosenInTurn(candidates: seq<bytes>, offset: nat, j: nat)
    requires DistinctCandidates(candidates) && j < |candidates|
    ensures Choose(RoundRobin, candidates, offset) == Ok(candidates[j]) <==> offset % |candidates| == j
  {
    var i := offset % |candidates|;
    assert 0 <= i < |candidates|;
  }

  lemma NextRemainder(n: nat, m: nat)
    requires m > 0
    ensures n % m + 1 < m ==> (n + 1) % m == n % m + 1 && (n + 1) / m == n / m
    ensures n % m + 1 == m ==> (n + 1) % m == 0 && (n + 1) / m == n / m + 1
  {
    var q, r := n / m, n % m;
    var next := if r + 1 < m then q else q + 1;
    assert (q + 1) * m == q * m + m;
    DivIs(n + 1, m, next);
    assert n + 1 == ((n + 1) / m) * m + (n + 1) % m;
  }

  /** Under round robin the expected counts of two options never differ by more than one. */
  lemma ExpectedCountsEven(
    voters: seq<Voter>, candidates: seq<bytes>, persist: bool, finalWritten: bool, r: Report, i: nat, j: nat)
    requires Finished(voters, RoundRobin, candidates, persist, finalWritten, r) && DistinctCandidates(candidates)
    requires i < |candidates| && j < |candidates|
    ensures CountOf(r.totals.expected, candidates[i]) <= CountOf(r.totals.expected, candidates[j]) + 1
  {
    hide Tallies, Balanced, PersistFailure, DistinctCandidates, Fates, KeysOf, Choosers;
    var n := Started(voters, persist);
    RoundRobinShare(candidates, n, i);
    RoundRobinShare(candidates, n, j);
  }

  lemma {:induction false} AllChoosers(candidates: seq<bytes>, n: nat, c: bytes, d: bytes)
    requires c in candidates
    ensures Choosers(All(c), candidates, n, d) == if d == c then n else 0
  {
    if n > 0 {
      AllChoosers(candidates, n - 1, c, d);
    }
  }

  /** With one configured option every voter started is expected for it and for no other. */
  lemma ExpectedCountsAll(
    voters: seq<Voter>, candidates: seq<bytes>, persist: bool, finalWritten: bool, r: Report, c: bytes, d: bytes)
    requires Finished(voters, All(c), candidates, persist, finalWritten, r) && c in candidates
    ensures CountOf(r.totals.expected, d) == if d == c then Started(voters, persist) else 0
  {
    hide Tallies, Balanced, PersistFailure, Fates, KeysOf, Choosers, ProofTime, SubmissionTime, Records, AveragesOf;
    AllChoosers(candidates, Started(voters, persist), c, d);
  }

  lemma {:induction false} DeliveriesAreChosen(voters: seq<Voter>, choice: Choice, candidates: seq<bytes>, n: nat, c: bytes)
    requires n <= |voters|
    ensures Deliveries(voters, choice, candidates, n, c) <= Choosers(choice, candidates, n, c)
  {
    hide Accepted, Choose;
    if n > 0 {
      DeliveriesAreChosen(voters, choice, candidates, n - 1, c);
    }
  }

  /** No option is observed more often than expected. */
  lemma ObservedWithinExpected(
    voters: seq<Voter>, choice: Choice, candidates: seq<bytes>, persist: bool, finalWritten: bool, r: Report, c: bytes)
    requires Finished(voters, choice, candidates, persist, finalWritten, r)
    ensures CountOf(r.totals.observed, c) <= CountOf(r.totals.expected, c)
  {
    hide Tallies, Balanced, PersistFailure, Fates, KeysOf, Choosers, Deliveries, Records;
    DeliveriesAreChosen(voters, choice, candidates, Started(voters, persist), c);
  }
}
