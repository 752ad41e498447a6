# Verified model of the private-ballot core

This project models, in Dafny, the parts of the private-ballot system whose correctness depends on
more than one function, and proves what they promise:

- the archive-verification memo: a bounded least-recently-used cache with per-key single flight, shared by
  any number of threads (`MemoTable`, `MemoSystem`, `MemoTheorems`, `MemoRetention`);
- the deterministic CBOR encoder and decoder of the independent vector verifier, and the archive manifest
  codec built on the same format (`Cbor`, `CborBytes`, `CborDecoder`, `ArchiveManifest`, `ManifestCodec`);
- the archive catalog, the establishment of an archive's identity and the rebuild stage
  (`ArchiveCatalog`, `ArchiveIdentity`, `ArchiveVerdicts`);
- the append-only replay transcript, the acceptance ledger, and batched against serial ballot replay
  (`Replay`, `ReplaySession`);
- the canonical JSON writer and strict parser of the V2 public payload (`JsonText`, `JsonWriter`,
  `JsonFields`, `JsonSound`, `PublicPayload`, `PayloadCodec`, `PayloadText`, `PayloadWriter`, `PayloadParser`);
- the anchor transaction store, its receipts, its recovery snapshots and the verifiers of receipts and
  events (`AnchorIds`, `AnchorStore`, `AnchorReuse`, `AnchorRuns`, `AnchorVerdicts`, `AnchorCreation`, `AnchorReceipts`,
  `AnchorRestart`, `AnchorOutcomes`, `AnchorFake`, `AnchorEvents`, `ReceiptVerdicts`);
- Gregorian calendar arithmetic and UTC timestamps (`Calendar`, `Decimals`);
- the lifecycle polling controller (`RefreshController`) and the load driver's accounting loop (`LoadDriver`).

`Bytes`, `Utf8`, `Unicode`, `Hex` and `Arithmetic` hold what these share. Byte strings are sequences of a `byte` type,
text is a byte string with a validity predicate (section 4 of RFC 3629), and integers are unbounded with
`u64` limits and wrap-around written out where the code has them.

Pure code is modelled as functions. Code that changes things in place is modelled as classes and methods with
loops (`MemoState`, `CanonicalCborDecoder`, `CanonicalCborWriter`, `CanonicalCborReader`, `VerificationTranscript`,
`BallotAcceptanceLedger`, `ArchiveReplaySession`, `CanonicalJsonWriter`, `CanonicalJsonParser`,
`DeterministicAnchorFake`, `LifecycleAutoRefreshController`, and the loops of `LoadDriver`); each of these methods
is proved equal to a specification function, and the theorems are about those functions. Concurrency, event
order and runs are modelled as sequences of atomic steps; the theorems quantify over all of them.

What the specification functions themselves answer is stated a second time, without naming them: the bytes of every
payload and every CBOR value as literals (`PayloadText`, `CborBytes`), the reading of a timestamp (`Calendar`), the
answer of every anchor call from the calls made before it (`AnchorVerdicts`, `AnchorCreation`, `AnchorOutcomes`), of
every receipt from its logs and events (`ReceiptVerdicts`), of every path, manifest and directory from its bytes
(`ArchiveVerdicts`), of every package from the verifier's own results (`Replay`), of every lookup from the callers and
the cache (`MemoRetention`), and of every counter from the events or the script (`RefreshController`, `LoadDriver`).

Hashes are functions given as parameters. The memo theorems assume nothing about them: where the result could
differ, they name two callers of the run whose established identities collide, by their manifest bytes or by the
bytes of one file. The anchor theorems assume an injective hash.

Results where the code does less than one might expect are stated as such, with the exact condition:

- two archive hashes of one directory can be cached together, exactly after a late publish
  (`MemoTheorems.OneHashUnlessLate`, `MemoTheorems.TwoHashesCoexist`);
- of what snapshots and receipt queries show, restart loses the finality, unless it was unknown, of submitted
  requests that were expired afterwards, and nothing else (`AnchorRestart.RestartPreserves`,
  `AnchorRestart.ForgettingRun`); such requests come back approved, so submissions refused as expired are accepted
  after the restart, and no other refusal changes (`AnchorRestart.RestartSubmissionsIff`);
- timestamps sort as their times up to the end of year 9999 and no further (`Calendar.TimestampOrderLimit`);
- the order of events in a receipt can change which error is reported, exactly when the header passes and both
  kinds of offending event are present; it never changes the verdict (`AnchorEvents.OrderFreeIff`);
- a creation that misses the client index replaces a stored request exactly when its binding has been used with
  the same disambiguator: by a client whose reference spells the counter, by an anonymous creation whose counter
  spells the reference, or by the same counter before it wrapped (`AnchorReuse.CreateReplacesIff`). Runs that do
  so are constructed (`AnchorReuse.LargeCounterOverwrites`, `AnchorReuse.WrapOverwrites`); with at most 2^56
  anonymous creations there are none (`AnchorRuns.CreateNeverOverwrites`);
- after a restart client index and counter start afresh, so such a reuse is easy, and the same condition says when
  it happens (`AnchorRestart.RestartReplacesIff`, `AnchorRestart.RestartLosesSubmission`);
- stopping the polling controller cancels its pending timers except exactly those whose handle a late callback made
  it forget (`RefreshController.StopLeavesDisturbed`); they begin no tick.

The comment at `tools/independent_vector_verifier.py:23` names section 4.2.1 of RFC 8949, but the code orders
map keys by length first, which is section 4.2.3; the model follows the code. The comment at `gui/src/lifecycleAutoRefresh.ts:146-148` says
that a stop cancels any pending timer; the code cancels the one whose handle it holds, and the model follows the code.

`dafny verify dfyconfig.toml` checks the whole project.

## Model

| member | source | states |
|---|---|---|
| Calendar.CivilOfDay | crates/cli/src/managed_tor.rs:421-433 | for every integer day number the result is a valid proleptic Gregorian date and `days_from_civil` of it is that day number |
| Calendar.DayOfCivil | crates/cli/src/managed_tor.rs:421-433 | every valid date comes back from its own day number, so the conversion is a two-sided inverse |
| Calendar.CivilSuccessor | crates/cli/src/managed_tor.rs:421-433 | day d+1 is the calendar successor of day d, with the leap-century rules |
| Calendar.YearOfEraIs | crates/cli/src/managed_tor.rs:425-426 | the closed-form year of the era is right on every day of each of its 400 years |
| Calendar.EarlierIsFewerDays | crates/cli/src/managed_tor.rs:421-433 | the order of dates is the order of day numbers |
| Calendar.EpochDay | crates/cli/src/managed_tor.rs:421-433 | day 0 is 1970-01-01 |
| Calendar.TimestampReads | crates/cli/src/managed_tor.rs:404-419 | before year 10000 every text has 20 bytes with its separators in place, its six numbers are a valid date and time of day, and they denote exactly the formatted second |
| Calendar.UtcTimestampReads | crates/cli/src/managed_tor.rs:404-419 | the formatter's text denotes the second its nanoseconds fall in, and the epoch for a time before it |
| Calendar.TimestampOrder | crates/cli/src/managed_tor.rs:404-419 | formatted timestamps from 1970 to 9999 sort exactly as their times do |
| Calendar.UtcTimestampOrder | crates/cli/src/managed_tor.rs:404-419 | the formatter orders times by their whole seconds, with times before the epoch counted as the epoch |
| Calendar.TimestampOrderLimit | crates/cli/src/managed_tor.rs:404-419 | timestamps below a limit sort as times if and only if the limit is at most the first second of year 10000 |
| Calendar.OrderBreaksAtYear10000 | crates/cli/src/managed_tor.rs:404-419 | the first timestamp of year 10000 sorts before the last one of year 9999 |
| Cbor.DecodeThenEncode | tools/independent_vector_verifier.py:253-377 | every accepted byte string re-encodes to itself |
| Cbor.EncodeThenDecode | tools/independent_vector_verifier.py:187-250 | an encodable value decodes back to itself if and only if it fits the size and nesting limits |
| Cbor.PrefixFree | tools/independent_vector_verifier.py:187-250 | no encoding is a prefix of another value's encoding |
| Cbor.MapEncodable | tools/independent_vector_verifier.py:233-250 | a map is encodable if and only if its entries are and their encoded keys strictly ascend, length first |
| Cbor.DecodeSound | tools/independent_vector_verifier.py:313-374 | what the decoder reads, at any nesting, is the encoding of the value it returns |
| CborBytes.BigEndianAt | tools/independent_vector_verifier.py:187-200 | byte i of a w-byte argument is the digit of weight 256^(w-1-i) |
| CborBytes.EncodingIs | tools/independent_vector_verifier.py:203-250 | the literal bytes of each kind of value: its initial byte, its argument and its contents |
| CborBytes.EncodableIff | tools/independent_vector_verifier.py:203-250 | a value is encodable if and only if, kind by kind, its integers are below 2^64, its text is well formed, its parts are encodable and its map keys strictly ascend |
| CborBytes.IntegerOrder | tools/independent_vector_verifier.py:187-200 | on unsigned integers the deterministic key order of the encodings is the numeric order |
| CborBytes.DecodeRefusals | tools/independent_vector_verifier.py:253-377 | oversized and empty input, negative integers, unsupported kinds, indefinite lengths and reserved argument sizes are refused |
| CborBytes.LongArgument | tools/independent_vector_verifier.py:284-306 | an argument in a longer form than necessary is refused for every kind of value |
| CborBytes.TrailingRefused | tools/independent_vector_verifier.py:265-271 | any bytes after a value that is accepted alone make the input refused |
| CborDecoder.EncodeCanonical | tools/independent_vector_verifier.py:203-250 | the encoder with its map loop computes the specified encoding or its error |
| CborDecoder.CanonicalCborDecoder.DecodeValue | tools/independent_vector_verifier.py:313-373 | the in-place decoder returns the specified value and leaves the specified bytes unread |
| CborDecoder.CanonicalCborDecoder.DecodeMap | tools/independent_vector_verifier.py:339-363 | the map loop with its set of seen keys accepts exactly unique keys in order |
| CborDecoder.DecodeComplete | tools/independent_vector_verifier.py:265-271 | decoding refuses oversized input and trailing bytes and otherwise returns the one value |
| ArchiveCatalog.BuildCatalog | crates/archive/src/file_entry.rs:249-278 | the loop over sorted entries returns the catalog or the duplicate error that the specification gives |
| ArchiveCatalog.CatalogCanonical | crates/archive/src/file_entry.rs:249-278 | refused if and only if the entries are none, more than 65,536, or two of them have paths equal up to ASCII case; otherwise strictly sorted, collision-free, the same entries, and a fixed point |
| ArchiveCatalog.CatalogOrderFree | crates/archive/src/file_entry.rs:249-278 | any permutation of the entries gives the same catalog or the same error |
| ArchiveCatalog.CatalogOfCanonical | crates/archive/src/file_entry.rs:249-278 | a list that is already canonical is its own catalog |
| ArchiveVerdicts.PathVerdict | crates/archive/src/file_entry.rs:26-150 | a path is accepted if and only if it has 1 to 1,024 bytes, all from the portable alphabet, and every name between slashes is nonempty, does not end in a dot and is no device name, in any case, before its first dot; else the error is the empty, the limit or the invalid one |
| ArchiveVerdicts.CollisionIff | crates/archive/src/file_entry.rs:78-80 | two paths collide if and only if they are equal up to the case of ASCII letters |
| Bytes.LexLessIff | crates/archive/src/file_entry.rs:264-264 | paths are ordered by their first differing byte, a proper prefix first |
| ArchiveVerdicts.CatalogVerdict | crates/archive/src/file_entry.rs:249-278 | a catalog is accepted if and only if it has 1 to 65,536 entries no two of which collide, and then is the strictly sorted permutation of its entries; else the error is the empty, the limit or the duplicate one |
| ArchiveManifest.EncodeThenDecode | crates/archive/src/manifest.rs:223-394 | every manifest the encoder accepts decodes to itself |
| ArchiveManifest.DecodeThenEncode | crates/archive/src/manifest.rs:263-394 | every accepted byte string is the encoding of the valid manifest it yields |
| ArchiveManifest.DecoderInvertsEncoder | crates/archive/src/manifest.rs:223-394 | the V1/V2 decoder accepts exactly the encoder's image and inverts it |
| ArchiveManifest.EqualFilesEqualBytes | crates/archive/src/manifest.rs:93-150 | equal sets of files, in any order, give equal archive bytes |
| ArchiveManifest.BodyIsTree | crates/archive/src/manifest.rs:223-260 | the Rust writer's bytes are the independent verifier's encoding of the manifest's tree |
| ArchiveManifest.IndependentDecoderAgrees | tools/independent_vector_verifier.py:376-377 | the independent decoder accepts every encoded manifest and reads the same fields |
| ArchiveVerdicts.BlankIff | crates/archive/src/manifest.rs:127-132 | an identifier counts as blank if and only if all its characters are Unicode white space |
| ArchiveVerdicts.ManifestVerdict | crates/archive/src/manifest.rs:93-150 | which fields make a manifest, and which error each other choice of fields gives |
| ArchiveVerdicts.ManifestBytes | crates/archive/src/manifest.rs:223-260 | a manifest is written as the encoding of a literal array of its version, hash, algorithm, lifecycle for version two, and path and digest of each file, or refused above 1,048,576 bytes |
| ArchiveVerdicts.HeaderVerdict | crates/archive/src/manifest.rs:263-337 | what the decoder answers for every field count, version, hash, algorithm and lifecycle state that is spelled well |
| ArchiveVerdicts.SizeVerdict | crates/archive/src/manifest.rs:263-269 | input of more than 1,048,576 bytes is refused unread |
| ArchiveVerdicts.ListVerdict | crates/archive/src/manifest.rs:339-394 | what it answers for every list of files after an accepted header: empty, too many, followed by more bytes, out of order, colliding, out of scope, or accepted |
| ManifestCodec.EncodeManifest | crates/archive/src/manifest.rs:223-260 | the writer calls produce the specified bytes or the size error |
| ManifestCodec.DecodeManifest | crates/archive/src/manifest.rs:263-394 | the reader loop, the order check and the constructors return the specified manifest or error |
| ArchiveIdentity.EstablishIdentity | crates/archive/src/verifier.rs:364-475 | the stages with their loop over catalog files return the specified identity or failing stage |
| ArchiveIdentity.EstablishedIffIntact | crates/archive/src/verifier.rs:364-475 | a directory establishes an identity if and only if it holds exactly that identity's manifest bytes and matching files and nothing else |
| ArchiveVerdicts.DirectoryVerdict | crates/archive/src/verifier.rs:364-475 | the stage and reason every directory fails with: no manifest, a manifest that does not decode, another algorithm, a listed file missing, an unlisted file, a differing digest |
| ArchiveIdentity.SameHashSameIdentity | crates/archive/src/verifier.rs:364-475 | two intact identities with one archive hash are equal, or they collide: their manifests have different bytes with one hash, or at one path they hold different bytes with one digest |
| ArchiveIdentity.RebuiltCatalog | crates/archive/src/verifier.rs:659-677 | re-digesting the files gives back the archived catalog entry for entry, whatever order they are visited in |
| ArchiveIdentity.RebuildExact | crates/archive/src/verifier.rs:659-695 | the rebuild cannot fail, and the archive-hash stage fails if and only if the archived election hash differs from the recomputed one |
| MemoTable.PublishEvictsOldest | crates/archive/src/verification_memo.rs:201-224 | a verified publish into a full table evicts exactly the least recently used key, otherwise none |
| MemoTable.LookupKeepsTable | crates/archive/src/verification_memo.rs:145-191 | lookup keeps the recency list exactly the cached keys in order of last use, and the size bound |
| MemoTable.PublishKeepsTable | crates/archive/src/verification_memo.rs:194-224 | so does publishing, whether or not the outcome is verified |
| MemoTable.MemoState.LookupOrJoin | crates/archive/src/verification_memo.rs:145-191 | the lookup critical section performs the specified lookup in place |
| MemoTable.MemoState.PublishCompletion | crates/archive/src/verification_memo.rs:194-224 | the publish critical section with its eviction loop performs the specified publish in place |
| MemoSystem.StepKeeps | crates/archive/src/verification_memo.rs:122-261 | every atomic step of every caller keeps the system invariant |
| MemoTheorems.MemoAgrees | crates/archive/src/verification_memo.rs:122-232 | in every interleaving a hit, an owner and a waiter all get `finish_verification` of the caller's own identity, unless that identity collides with one that some caller of the same run established |
| MemoTheorems.CachedReportsVerified | crates/archive/src/verification_memo.rs:205-211 | only verified reports are ever cached, each one the verification of an identity with its archive hash that some caller established |
| MemoTheorems.SingleFlight | crates/archive/src/verification_memo.rs:145-191 | at most one caller computes a given key at a time |
| MemoTheorems.OutcomeSetOnce | crates/archive/src/verification_memo.rs:226-232 | a flight's outcome, once set, never changes |
| MemoTheorems.SharedOutcome | crates/archive/src/verification_memo.rs:244-261 | owner and waiters of a flight return exactly its outcome |
| MemoTheorems.Progress | crates/archive/src/verification_memo.rs:200-261 | a caller that has not returned can step, or waits for a flight whose live owner can |
| MemoTheorems.RunBound | crates/archive/src/verification_memo.rs:122-261 | without new callers every run ends within four steps per caller |
| MemoTheorems.TableShape | crates/archive/src/verification_memo.rs:88-91 | in every reachable state the recency list is duplicate-free, lists exactly the cached keys by last use, cached and in-flight keys are disjoint, and the size is within capacity |
| MemoTheorems.PublishEvictsAtMostOne | crates/archive/src/verification_memo.rs:201-224 | in every reachable state a publish adds at most its own key and removes at most the least recently used one |
| MemoRetention.LookupAnswers | crates/archive/src/verification_memo.rs:145-191 | in every reachable state a lookup returns the cached report, or else joins the flight of a caller that is verifying the key, or else starts one |
| MemoRetention.LeavesIff | crates/archive/src/verification_memo.rs:150-224 | a cached report leaves if and only if another hash of its directory is looked up in vain or a verified report is published into a full table in which it is least recent; until then it does not change |
| MemoRetention.StaysCached | crates/archive/src/verification_memo.rs:145-224 | over every run without such a lookup, a report stays cached while cached keys are used fewer than `capacity` times after its own last use |
| MemoRetention.PublishedIsReturned | crates/archive/src/verification_memo.rs:122-224 | so every lookup of its key in such a run returns exactly the published report |
| MemoTheorems.StaleOnlyByLaterPublish | crates/archive/src/verification_memo.rs:150-173 | whatever runs after a miss, every cached entry of that directory was published since the miss |
| MemoTheorems.OneHashUnlessLate | crates/archive/src/verification_memo.rs:150-173 | a step keeps one cached hash per directory if and only if it is not a late publish |
| MemoTheorems.TwoHashesCoexist | crates/archive/src/verification_memo.rs:150-173 | a reachable state holds two hashes of one directory |
| Replay.CompleteIffDecided | crates/archive/src/replay.rs:284-309 | the completeness check passes if and only if every submission has its matching decision in order |
| Replay.CheckVerdict | crates/archive/src/replay.rs:284-309 | of any transcript: complete if and only if every position holds the decision on its submission; otherwise the first position that does not decides the error |
| Replay.DecideVerdict | crates/archive/src/replay.rs:198-249 | a decision is accepted if and only if it is the next one and on that submission's digest; every other is refused as duplicate, out of sequence or mismatched |
| Replay.VerificationTranscript.RecordDecision | crates/archive/src/replay.rs:198-249 | a decision is appended only for the next undecided submission with its digest; otherwise nothing changes |
| Replay.VerificationTranscript.AcceptedCount | crates/archive/src/replay.rs:270-276 | the loop counts the decisions that accept |
| Replay.BallotAcceptanceLedger.AcceptVerified | crates/verifier/src/lib.rs:77-100 | a ballot is accepted if and only if the lifecycle gate passes and its nullifier is new |
| Replay.GateIff | crates/ballot/src/lifecycle.rs:149-192 | the gate opens if and only if the election is open or closed and the ballot quotes the frozen manifest hash and registry commitment, and what it objects to otherwise |
| Replay.VerifyOneIff | crates/verifier/src/proof_verification.rs:59-116 | a package verifies as a ballot if and only if it decodes, its proof has 1 to 65,536 bytes, the suites agree and the verifier accepts the proof for the statement of the election's own terms, hash, scope and commitment and the decoded payload's hash; the ballot is that result with the decoded payload |
| Replay.VerifyOneRefusals | crates/verifier/src/proof_verification.rs:59-116 | the code of the first check a package fails |
| Replay.BatchIsPointwise | crates/verifier/src/approval_ingestion.rs:144-195 | batch verification returns each package's own result in order |
| ReplaySession.BatchedIsSerial | crates/archive/src/verifier.rs:827-935 | for every package list and every positive batch size, batched and serial replay give the same transcript and ledger |
| ReplaySession.ReplayAcceptsFirstValid | crates/archive/src/verifier.rs:827-890 | under any lifecycle the accepted ballots are exactly the first package of each nullifier that verifies and passes the lifecycle gate, in archive order, and every decision is the expected one |
| ReplaySession.OwnSessionAcceptsFirstVerified | crates/archive/src/verifier.rs:787-890 | in a session frozen to the election's own commitments and opened, with statements rebuilt from the election, the accepted ballots are exactly those of the first cryptographically valid package of each nullifier, in archive order, each with the payload its package decodes to and the verifier's result for its proof |
| ReplaySession.AcceptedCountIsLedger | crates/archive/src/replay.rs:270-276 | the transcript's accepted count is the number of ballots in the ledger |
| ReplaySession.ArchiveReplaySession.ReplayBatched | crates/archive/src/verifier.rs:827-853 | the chunk loop and the apply loop perform the specified batched replay in place |
| ReplaySession.ArchiveReplaySession.ApplyVerified | crates/archive/src/verifier.rs:864-890 | applying one verified package appends its submission and decision and updates the ledger as specified |
| Hex.ToFromHex | crates/anchor-transport/src/payload.rs:150-168 | lowercase hexadecimal text reads back as the bytes written |
| Hex.FromToHex | crates/anchor/src/public_payload_v2.rs:799-824 | whatever the hex reader accepts is the hex text of what it returns |
| Hex.DecodeHex | crates/anchor/src/public_payload_v2.rs:799-810 | the loop over pairs returns the specified bytes and refuses odd lengths and other characters |
| Hex.HexAt | crates/anchor-transport/src/payload.rs:150-160 | byte i is spelled by digits 2i and 2i+1 of the lowercase alphabet, high half first |
| Hex.HexAccepts | crates/anchor/src/public_payload_v2.rs:799-824 | the reader accepts exactly texts of even length over the lowercase alphabet |
| Decimals.DecimalAt | crates/anchor/src/public_payload_v2.rs:477-481 | the digit of weight 10^i stands i places from the end of a written number |
| Unicode.Utf8Iff | crates/anchor/src/public_payload_v2.rs:771-773 | a byte string is accepted as text if and only if it is the encoding of Unicode scalar values (section 3 of RFC 3629) |
| JsonText.ReadQuoted | crates/anchor/src/public_payload_v2.rs:379-401 | a written string reads back as itself, whatever follows it |
| JsonText.StringSpelling | crates/anchor/src/public_payload_v2.rs:710-773 | the text of an accepted string is the canonical one unless it spells a short escape long, and is never shorter |
| JsonText.NumberSpelling | crates/anchor/src/public_payload_v2.rs:775-797 | an accepted integer is below 2^64 and spelled exactly as it is written |
| JsonText.EscapeTable | crates/anchor/src/public_payload_v2.rs:379-401 | the literal escape of every byte of a string |
| JsonText.EscapeAppend | crates/anchor/src/public_payload_v2.rs:379-401 | the escaped text of a string is that of its bytes, one after the other |
| JsonWriter.CloseRenders | crates/anchor/src/public_payload_v2.rs:416-438 | closing a container leaves the text of its parent with the whole child printed in it |
| JsonWriter.CanonicalJsonWriter.BeginObject | crates/anchor/src/public_payload_v2.rs:409-414 | opening an object keeps the text equal to the recursive rendering of the open containers |
| JsonWriter.CanonicalJsonWriter.EndObject | crates/anchor/src/public_payload_v2.rs:416-419 | closing an object restores the comma flag and adds the finished object to its parent |
| JsonWriter.CanonicalJsonWriter.BeginArrayField | crates/anchor/src/public_payload_v2.rs:428-433 | opening an array field keeps the rendering |
| JsonWriter.CanonicalJsonWriter.EndArray | crates/anchor/src/public_payload_v2.rs:435-438 | closing an array adds it to its object |
| JsonWriter.CanonicalJsonWriter.FieldString | crates/anchor/src/public_payload_v2.rs:440-443 | a string field adds one member to the open object |
| JsonWriter.CanonicalJsonWriter.FieldLowerHex | crates/anchor/src/public_payload_v2.rs:467-475 | a hex field adds one member to the open object |
| JsonWriter.AllClosed | crates/anchor/src/public_payload_v2.rs:367-369 | when everything is closed the text is the recursive printer's |
| JsonFields.FieldsRead | crates/anchor/src/public_payload_v2.rs:495-597 | printed fields read back as the values that were printed, rows included |
| JsonFields.RowsRead | crates/anchor/src/public_payload_v2.rs:534-559 | printed result rows read back as those rows |
| JsonSound.FieldsSpelled | crates/anchor/src/public_payload_v2.rs:495-597 | fields that read are well typed, and their text is the printed one unless it spells a short escape long |
| JsonSound.RowsSpelled | crates/anchor/src/public_payload_v2.rs:534-559 | the same for result rows, within the entry limit |
| JsonFields.FieldsFail | crates/anchor/src/public_payload_v2.rs:495-597 | when every field before it is spelled well, the first value that does not read decides the parser's error |
| JsonFields.ValueRefusals | crates/anchor/src/public_payload_v2.rs:495-518 | another schema or version is refused as unsupported, a network name that is too long or ill formed by its own code |
| PayloadCodec.EncodeThenDecode | crates/anchor/src/public_payload_v2.rs:194-283 | decoding the bytes of any payload the encoder accepts returns exactly that payload |
| PayloadCodec.DecodeThenEncode | crates/anchor/src/public_payload_v2.rs:263-283 | an accepted text is the encoding of the payload it yields |
| PayloadCodec.AcceptsExactlyEncodings | crates/anchor/src/public_payload_v2.rs:194-283 | the decoder returns a payload for a text if and only if the text is that payload's encoding |
| PayloadCodec.ComparisonRejectsExactlyLongSpellings | crates/anchor/src/public_payload_v2.rs:273-281 | among texts that parse and validate, the comparison with the re-encoding rejects precisely those spelling backspace, tab, newline, form feed or return as a long escape |
| PayloadCodec.EncodingInjective | crates/anchor/src/public_payload_v2.rs:318-333 | encoding is injective, alone and behind the domain frame |
| PayloadText.TreeText | crates/anchor/src/public_payload_v2.rs:194-253 | the text of every payload is the literal concatenation of its 23 quoted keys in order, each followed by the printed field, and of the three keys of every row |
| PayloadText.EncodeIs | crates/anchor/src/public_payload_v2.rs:132-253 | the encoder answers that text, or the error for a field out of its literal bounds, or the error for a text of more than 262,144 bytes |
| PayloadWriter.ToCanonicalJsonBytes | crates/anchor/src/public_payload_v2.rs:194-253 | the sequence of writer calls yields the printed tree of the payload, or the validation or size error |
| PayloadWriter.WriteResults | crates/anchor/src/public_payload_v2.rs:215-223 | the loop over tally entries writes the results array |
| PayloadParser.CanonicalJsonParser.ReadJsonString | crates/anchor/src/public_payload_v2.rs:710-773 | the character loop reads the specified string and advances past it |
| PayloadParser.CanonicalJsonParser.ReadJsonU64 | crates/anchor/src/public_payload_v2.rs:775-797 | the digit loop reads the specified number and advances past it |
| PayloadParser.CanonicalJsonParser.ReadTally | crates/anchor/src/public_payload_v2.rs:534-559 | the row loop reads the specified rows and advances past the bracket |
| PayloadParser.ParseCanonicalJsonBytes | crates/anchor/src/public_payload_v2.rs:495-623 | the parser returns the specified payload or error code |
| PayloadParser.FromCanonicalJsonBytes | crates/anchor/src/public_payload_v2.rs:263-283 | the decoder parses, validates, re-encodes and compares as specified |
| AnchorIds.RequestFrameInjective | crates/anchor-transport/src/fake.rs:194-207 | a request frame determines its binding and disambiguator |
| AnchorIds.TransactionFrameInjective | crates/anchor-transport/src/fake.rs:210-222 | a transaction frame determines its request and digest |
| AnchorIds.CounterIsNoIdentifier | crates/anchor-transport/src/fake.rs:417-424 | below 2^56 no counter spells a client reference |
| AnchorStore.TakenIff | crates/anchor-transport/src/fake.rs:426-443 | an identifier is taken if and only if its binding and disambiguator have been used together |
| AnchorStore.NewRequestIsNew | crates/anchor-transport/src/fake.rs:393-446 | a creation that misses the client index gets an identifier no stored request has |
| AnchorStore.SameTransactionSameRequest | crates/anchor-transport/src/fake.rs:210-222 | a transaction identifier determines its request |
| AnchorStore.StepKeeps | crates/anchor-transport/src/fake.rs:393-572 | every operation keeps identifiers derived, decisions matching the run, and the transaction index inverse to the records |
| AnchorReuse.BindingNeverChanges | crates/anchor-transport/src/fake.rs:393-572 | in every run, of any length, a stored request stays stored and keeps its binding |
| AnchorRuns.BindingFixed | crates/anchor-transport/src/fake.rs:393-572 | with at most 2^56 anonymous creations it also keeps its fee ceiling and, once it has one, its transaction |
| AnchorRuns.CreateNeverOverwrites | crates/anchor-transport/src/fake.rs:393-446 | with at most 2^56 anonymous creations no creation changes a stored request, and one without a reference always makes a new one |
| AnchorRuns.CreateIsIdempotent | crates/anchor-transport/src/fake.rs:397-415 | after a successful creation its client reference returns that request for its binding and a conflict for any other, for ever |
| AnchorCreation.CreateAnswers | crates/anchor-transport/src/fake.rs:393-446 | what a creation under a client reference answers, from the calls before it: the armed failure, a new request, the request of the first creation under that reference with its fee ceiling, or a conflict |
| AnchorCreation.CreateAnonymousAnswers | crates/anchor-transport/src/fake.rs:393-446 | what a creation without one answers: the armed failure, or a request told apart by the number of such creations modulo 2^64 in eight bytes, least significant first |
| AnchorCreation.IdentifiersAre | crates/anchor-transport/src/fake.rs:194-222 | both identifiers are the lowercase hex of a digest over literal frames |
| AnchorRuns.ApprovedMeans | crates/anchor-transport/src/fake.rs:458-492 | the recorded approvals are exactly the approve calls of the run that succeeded |
| AnchorVerdicts.StoredMeans | crates/anchor-transport/src/fake.rs:393-446 | a request is stored under a binding if and only if some call created it under that binding |
| AnchorVerdicts.DecisionIs | crates/anchor-transport/src/fake.rs:458-509 | a stored decision is expired, approved, rejected or pending by the successful calls on the request, in that order of precedence |
| AnchorVerdicts.RejectedMeans | crates/anchor-transport/src/fake.rs:495-509 | the recorded rejections are exactly the reject calls of the run that succeeded |
| AnchorVerdicts.ExpiredMeans | crates/anchor-transport/src/fake.rs:127-131 | the recorded expiries are exactly the expire calls on stored requests |
| AnchorVerdicts.SwitchesAre | crates/anchor-transport/src/fake.rs:100-118 | armed failures, the armed timeout and the availability switch are those of the last calls that set or used them |
| AnchorVerdicts.RejectAnswers | crates/anchor-transport/src/fake.rs:495-509 | a rejection succeeds if and only if the request was created and neither approved nor expired, and what it answers otherwise |
| AnchorVerdicts.ApproveAnswers | crates/anchor-transport/src/fake.rs:458-492 | an approval under the request's binding answers the armed failure, or succeeds if and only if the request was not expired, approved or rejected, and what it answers otherwise |
| AnchorVerdicts.ApproveMismatch | crates/anchor-transport/src/fake.rs:458-492 | under any other binding it is refused for the first part that differs |
| AnchorVerdicts.SubmitAnswers | crates/anchor-transport/src/fake.rs:513-572 | a submission under the request's binding and digest seals it if and only if it was approved and not expired; a rejected one is refused as rejected until it expires |
| AnchorVerdicts.SubmitMismatch | crates/anchor-transport/src/fake.rs:513-572 | under any other binding or digest it is refused for the first part that differs |
| AnchorVerdicts.SubmittedIs | crates/anchor-transport/src/fake.rs:546-572 | a request counts as submitted if and only if some submission sealed it |
| AnchorVerdicts.FinalityIs | crates/anchor-transport/src/fake.rs:120-124 | a request's finality is the one last scripted for it, or unknown if a later submission lost its response |
| AnchorRuns.TransactionNeedsApproval | crates/anchor-transport/src/fake.rs:513-572 | a transaction exists only for a stored request that some earlier call approved under that exact binding |
| AnchorRuns.RequestsHaveOwnTransactions | crates/anchor-transport/src/fake.rs:546-560 | two requests never share a transaction |
| AnchorRuns.RejectedNeverSubmitted | crates/anchor-transport/src/fake.rs:495-509 | after a successful rejection no run gives the request a transaction and every submission of it is refused |
| AnchorRuns.ResubmitSameTransaction | crates/anchor-transport/src/fake.rs:513-572 | submitting a request that is still approved again yields the transaction it has, or a timeout that changes no index |
| AnchorReuse.CreateReplacesIff | crates/anchor-transport/src/fake.rs:393-446 | in every run, of any length, a creation that misses the client index replaces a stored request if and only if its binding was used with the same disambiguator: a client reference spelling the counter or the same counter before, or a counter spelling the reference |
| AnchorReuse.StoredKeys | crates/anchor-transport/src/fake.rs:194-207 | the stored identifiers are exactly those of the creations that stored a record |
| AnchorReuse.UsedMeans | crates/anchor-transport/src/fake.rs:417-443 | the recorded uses are exactly the creations of the run that stored a record |
| AnchorReuse.RepeatNeedsWrap | crates/anchor-transport/src/fake.rs:421-421 | a counter repeats only after 2^64 anonymous creations |
| AnchorReuse.WrapOverwrites | crates/anchor-transport/src/fake.rs:421-421 | the run of 2^64 anonymous creations, after which the next one replaces the first request |
| AnchorReuse.LargeCounterOverwrites | crates/anchor-transport/src/fake.rs:419-424 | a run in which a submitted client request is replaced by the anonymous creation whose counter spells its reference |
| AnchorFake.DeterministicAnchorFake.CreateRequest | crates/anchor-transport/src/fake.rs:393-446 | creation performs the specified state change and reply |
| AnchorFake.DeterministicAnchorFake.ApproveRequest | crates/anchor-transport/src/fake.rs:458-492 | approval performs the specified state change and reply |
| AnchorFake.DeterministicAnchorFake.RejectRequest | crates/anchor-transport/src/fake.rs:495-509 | rejection performs the specified state change and reply |
| AnchorFake.DeterministicAnchorFake.SubmitRequest | crates/anchor-transport/src/fake.rs:513-572 | submission performs the specified state change and reply, armed timeout included |
| AnchorFake.DeterministicAnchorFake.SetRequestFinality | crates/anchor-transport/src/fake.rs:120-124 | scripted finality performs the specified state change |
| AnchorFake.DeterministicAnchorFake.InjectExpire | crates/anchor-transport/src/fake.rs:127-131 | expiry performs the specified state change, whatever the decision was |
| AnchorFake.DeterministicAnchorFake.Snapshots | crates/anchor-transport/src/fake.rs:148-153 | lists one snapshot per request in request order |
| AnchorFake.DeterministicAnchorFake.FromSnapshots | crates/anchor-transport/src/fake.rs:161-191 | the restore loop rebuilds the specified store |
| AnchorReceipts.ParseIffEncoded | crates/anchor-transport/src/payload.rs:81-125 | the strict payload parser accepts exactly the encodings of 32-byte digests |
| AnchorReceipts.ParseProjectLogs | crates/anchor-transport/src/verification.rs:373-392 | the loop over log entries returns the specified payloads or the malformed-log error |
| AnchorReceipts.VerifiedIff | crates/anchor-transport/src/verification.rs:109-158 | a receipt verifies if and only if transaction, network and full acceptance match and its project logs are exactly one log of the expected digest |
| AnchorReceipts.LogOrderIsIrrelevant | crates/anchor-transport/src/verification.rs:109-158 | any order of the logs gives the same evidence or the same error |
| ReceiptVerdicts.PayloadVerdict | crates/anchor-transport/src/payload.rs:81-125 | what the strict parser answers to every text, with the prefix written out |
| ReceiptVerdicts.HeaderVerdict | crates/anchor-transport/src/verification.rs:109-133 | what log and event verification answer to a wrong transaction, network or status |
| ReceiptVerdicts.LogVerdict | crates/anchor-transport/src/verification.rs:109-158 | what log verification answers to every other receipt: some malformed project log, none, one that spells the digest or another, or several with one message or different ones |
| AnchorRestart.VerifiedIffAccepted | crates/anchor-transport/src/fake.rs:576-612 | in every reachable store with a reachable source, verifying the queried outcome succeeds if and only if a request was submitted under that transaction, finally accepted, and bound to the expected network and digest; the evidence names them |
| AnchorOutcomes.QueryAnswers | crates/anchor-transport/src/fake.rs:269-332 | what the source reports for the transaction of a sealed request, by its last scripted finality, with every field of the receipt |
| AnchorOutcomes.OutcomeAnswers | crates/anchor-transport/src/fake.rs:576-612 | what verifying that report answers for every network and digest |
| AnchorOutcomes.UnknownTransaction | crates/anchor-transport/src/fake.rs:576-612 | a transaction that is no sealed request's is not found |
| AnchorOutcomes.UnavailableSource | crates/anchor-transport/src/fake.rs:576-584 | a switched-off source answers only that it is unavailable |
| AnchorOutcomes.SnapshotIs | crates/anchor-transport/src/fake.rs:135-153 | the snapshot of a request, read off the calls: state, transaction and last receipt status |
| AnchorRestart.RestartPreserves | crates/anchor-transport/src/fake.rs:135-191 | for every reachable store, restart preserves all snapshots and all query answers if and only if no submitted request was expired with a finality other than unknown, not-finalized included |
| AnchorRestart.RestartSubmissionsIff | crates/anchor-transport/src/fake.rs:334-390 | for every reachable store, restart leaves the refusal of every submission as it was if and only if no submitted request was expired; such a request comes back approved |
| AnchorRestart.ForgettingRun | crates/anchor-transport/src/fake.rs:126-131 | an admissible run that reaches the exception, for every valid binding and client reference |
| AnchorRestart.RestartReplacesIff | crates/anchor-transport/src/fake.rs:161-191 | after a restart and any calls since, a creation that misses the client index replaces a stored request if and only if its binding was used with the same disambiguator before or after the restart |
| AnchorRestart.RestartLosesSubmission | crates/anchor-transport/src/fake.rs:161-191 | a client that repeats its creation after a restart replaces its own submitted request |
| AnchorRestart.ListUnique | crates/anchor-transport/src/fake.rs:148-153 | a store has one snapshot list |
| AnchorEvents.VerifyV2EventReceipt | crates/anchor-transport/src/verification.rs:269-367 | the candidate loop and the metadata loop compute the specified verdict |
| AnchorEvents.AcceptedIff | crates/anchor-transport/src/verification.rs:269-367 | accepted if and only if transaction, network and full acceptance match, exactly one event touches the template, the topic or the digest key, it has both template and topic, and its metadata is a permutation of the four expected pairs |
| ReceiptVerdicts.OffenderVerdict | crates/anchor-transport/src/verification.rs:293-309 | the first event with exactly one of template and topic decides the error |
| ReceiptVerdicts.EventVerdict | crates/anchor-transport/src/verification.rs:313-367 | what event verification answers otherwise: no marked event, several, or one, judged by topic, number of entries, the four literal pairs and the digest |
| AnchorEvents.PermutationIffSoleKeys | crates/anchor-transport/src/verification.rs:326-359 | with as many entries as distinct expected keys, one occurrence of each key with its value means a permutation |
| AnchorEvents.EventOrderIsIrrelevant | crates/anchor-transport/src/verification.rs:293-319 | reordering the events changes neither verdict nor evidence |
| AnchorEvents.MetadataOrderIsIrrelevant | crates/anchor-transport/src/verification.rs:326-359 | reordering the metadata of any events changes neither the evidence nor the error |
| AnchorEvents.ErrorKindDependsOnOrder | crates/anchor-transport/src/verification.rs:269-312 | with a passing header, moving either of two differently offending events to the front makes verification report its error |
| AnchorEvents.OrderFreeIff | crates/anchor-transport/src/verification.rs:269-367 | every order of the events gives the same evidence or error if and only if the header is refused, or no event has the template with a wrong topic, or none has the topic with a wrong template |
| RefreshController.EventKeeps | gui/src/lifecycleAutoRefresh.ts:138-213 | every event keeps the controller's invariant |
| RefreshController.AtMostOneTick | gui/src/lifecycleAutoRefresh.ts:187-213 | in every event sequence at most one tick is outstanding across all runs, and the busy flag says whether |
| RefreshController.ExactlyOneCurrentTimer | gui/src/lifecycleAutoRefresh.ts:138-185 | a controller is active if and only if it has a pending timer of its run, and then exactly one |
| RefreshController.BeginsTickIff | gui/src/lifecycleAutoRefresh.ts:187-203 | a callback begins a tick if and only if no stop or dispose came since its timer was scheduled and no tick is outstanding; cancelled timers begin none |
| RefreshController.StopLeavesDisturbed | gui/src/lifecycleAutoRefresh.ts:149-180 | a stop leaves pending exactly the timers during whose run the callback of an overtaken timer arrived; a stopped controller has no others |
| RefreshController.DisturbedRun | gui/src/lifecycleAutoRefresh.ts:149-188 | a sequence of five events after which a stopped controller has a pending timer |
| RefreshController.CompletedTicksAreOwnSettles | gui/src/lifecycleAutoRefresh.ts:208-212 | the completed-tick counter counts exactly the ticks that settled before any stop or dispose |
| RefreshController.CountersAre | gui/src/lifecycleAutoRefresh.ts:138-213 | the controller is disposed, active and has started so many runs exactly as its starts, stops and disposes say, and has skipped as many callbacks as arrived in time while a tick was outstanding |
| RefreshController.DelayLaws | gui/src/lifecycleAutoRefresh.ts:68-80 | the delay starts at the interval, grows by one step per tick, starts over every four ticks, and its step is a quarter of the jitter rounded to the nearest, or none |
| RefreshController.StartSchedules | gui/src/lifecycleAutoRefresh.ts:138-144 | a start that takes effect arms exactly one new timer, at once if asked and else after the delay of the completed ticks; any other start changes nothing |
| RefreshController.FireSchedules | gui/src/lifecycleAutoRefresh.ts:187-203 | a callback that was not overtaken arms exactly the next timer after the delay of the completed ticks; an overtaken one arms none |
| RefreshController.LifecycleAutoRefreshController.StartPolling | gui/src/lifecycleAutoRefresh.ts:138-144 | start performs the specified change |
| RefreshController.LifecycleAutoRefreshController.StopPolling | gui/src/lifecycleAutoRefresh.ts:149-159 | stop performs the specified change |
| RefreshController.LifecycleAutoRefreshController.DisposeController | gui/src/lifecycleAutoRefresh.ts:162-165 | dispose performs the specified change |
| RefreshController.LifecycleAutoRefreshController.TickSettles | gui/src/lifecycleAutoRefresh.ts:208-212 | a settling tick performs the specified change |
| RefreshController.LifecycleAutoRefreshController.TimerFires | gui/src/lifecycleAutoRefresh.ts:187-213 | a callback, even a late one, performs the specified change |
| LoadDriver.ServeVoter | crates/cli/src/lib.rs:990-1470 | one voter moves every counter by exactly what its fate implies and leaves the failure record of that fate |
| LoadDriver.ServeVoters | crates/cli/src/lib.rs:968-1501 | there is one boundary snapshot per completed voter, each with the counters, counts, records, times and averages of the voters so far; the loop ends at the first stop or lost boundary, or fails if no voter can be given a candidate |
| LoadDriver.RunLoadDriver | crates/cli/src/lib.rs:968-1557 | the final report's state, counters, per-candidate counts, failure records, summed times and averages are those of the voters started, the stops and the writes |
| LoadDriver.TalliedBalances | crates/cli/src/lib.rs:1407-1470 | attempts are successes plus failures, receipts are verified plus unverified, completed voters are successes plus per-voter failure records |
| LoadDriver.CompleteIff | crates/cli/src/lib.rs:1531-1557 | COMPLETE is reported if and only if every voter passed its boundary and any requested final write succeeded; then all voters completed |
| LoadDriver.RoundRobinShare | crates/cli/src/lib.rs:382-395 | round robin gives each option one voter per full round and one more while the last round reaches it |
| LoadDriver.ObservedWithinExpected | crates/cli/src/lib.rs:1425-1431 | no option is observed more often than it was expected |
| LoadDriver.ExpectedCountsEven | crates/cli/src/lib.rs:2079-2094 | under round robin the expected counts of two options differ by at most one |
| LoadDriver.ExpectedCountsAll | crates/cli/src/lib.rs:394-399 | with one configured option every voter started is expected for it and for no other |
| LoadDriver.CountersMean | crates/cli/src/lib.rs:990-1470 | every counter is the number of voters of whom the script says so: repeated credentials, decrypted ones, proofs made and lost, ballots sent, accepted and mistrusted, voters completed |
| LoadDriver.RecordNames | crates/cli/src/lib.rs:990-1470 | the stage and code of every failure record are those of the first thing that went wrong for its voter |
| LoadDriver.FinalBooks | crates/cli/src/lib.rs:1510-1557 | the final books balance up to the one literal record that a lost results file leaves |

## Left out

- File access, directory walking, canonical paths, atomic replacement and bounded reads: an archive is a map from path to bytes, and each write of the load driver is a success or a failure.
- BLAKE3, Triptych proofs, the tally and the registry: hashes and `finish_verification` are parameters of the model; the batch verifier's contract (one result per input, in order) is an assumption.
- The details of a verification report beyond its verified flag, which no decision of the memo reads.
- Mutex poisoning, thread panics and the relaxed instrumentation counters of the memo.
- Restart as a step inside the bounded anchor runs: `AnchorRuns` is about one store, and `AnchorRestart` relates a store to its restored copy and to the calls made on that copy.
- Idempotent creation across a restart, which the code does not provide (`AnchorRestart.RestartLosesSubmission`).
- The V1 event verifier of `crates/anchor-transport/src/verification.rs:194-265`, a simpler form of the V2 one.
- The 32-byte width of hashes in the anchor store: an injective hash on all frames cannot have a fixed width, so the model leaves the width open.
- The privacy guard of the V2 payload, which screens for substrings.
- PayloadParser.ParseCanonicalJsonBytes: the 23 consecutive field reads are driven by a table of names and kinds instead of being written out.
- Calendar.CivilOfDay: days are unbounded integers; overflow of `i64` near its limits is not modelled.
- Replay.VerificationTranscript.RecordDecision: sequence numbers are unbounded; the conversion of an index to `u64`, which cannot fail on 64-bit machines, is not modelled.
- LoadDriver.RunLoadDriver: elapsed times, progress callbacks, the best-effort second write after a failed last one and the sorted listing of counts are not modelled; per-voter durations are inputs.
- Tor processes, SOCKS probing, argument parsing and credential decryption of the command line: each is one outcome in a voter's script.
- Proposal-question text checks, candidate definitions, labels and screens, which are single-branch code.
