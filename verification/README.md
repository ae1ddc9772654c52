# AppCore Runtime: a verified model of its protocols, logs, codecs and parsers

This project models the parts of the AppCore Runtime in which an invariant has to hold over many steps, or in which two
pieces of code must agree about one format, and proves those invariants and agreements. Each piece is modelled in the
form the program gives it: objects with mutable fields are classes, loops are loops with invariants, in-place buffer
work is done on arrays, and each of these is proved equal to a function over values. The theorems are then about those
functions, over every input or every run.

| Part | Files | Main results |
|---|---|---|
| Service leases | `ServiceLeases.dfy`, `ServiceWrites.dfy` | fencing over every run of control plane, guards and resource; epochs; validity windows stay disjoint exactly in the runs that shorten no lease; when a write is accepted, and that holders never write at the same time |
| Presence | `Presence.dfy` | on any clock, lazily pruned discovery shows exactly what an eager definition shows and was never overdue |
| Operational journal | `TextFile.dfy`, `Utf8.dfy`, `OperationalJournal.dfy`, `JournalChain.dfy`, `JournalRuns.dfy` | exactly the files that hold one hash chain load; the file always equals the encoding of the records; retention is the longest fitting suffix of the history over runs with crashes and reopenings; the sizes at which a crash is final |
| Idempotency store | `IdempotencyLog.dfy`, `IdempotencyFiles.dfy`, `IdempotencyRuns.dfy` | which files open and what they show; reopening shows exactly the live resolved records, over runs with restarts and torn appends |
| Command controller | `CommandController.dfy`, `DurableDispatch.dfy` | at most one execution per key, replay of its result, the dead branch; the same across restarts and torn appends of the file store |
| DNT container | `DntHeader.dfy`, `DntEnvelope.dfy`, `DntOpening.dfy`, `DntMigration.dfy` | the header codec is a bijection; exactly when an envelope opens, seals and re-keys; the in-place open refines the simple one; seal/open/re-key round trips; size bound |
| Command line | `CliSpec.dfy`, `CliParser.dfy`, `CliFinalRules.dfy`, `CliGrammar.dfy`, `CliCompletion.dfy`, `CliRendering.dfy`, `Suggestion.dfy` | the validator decides; exactly which command lines are accepted; parser and completer agree exactly when detached values are passed over; parsing is stable under a printer exactly when names are readable and no option takes the word printed after it; edit distance is a metric |
| Gateway | `GatewayRegistry.dfy`, `GatewayTenant.dfy`, `GatewayRouter.dfy` | two-way index, connection replacement, request correlation in every interleaving |
| Redaction | `Redaction.dfy`, `RedactionCharacters.dfy`, `RedactionTwice.dfy` | no secret after a marker survives, nothing else changes, and a second redaction changes nothing exactly when no cut went through a replaced secret |

`Prelude.dfy` holds result types and 64-bit arithmetic. `dafny verify dfyconfig.toml` verifies the whole project.

## What the proofs turned up

Where the code does not meet what its documentation or structure promises, the model keeps the code's behaviour, and the
property is proved together with the exact condition under which it holds.

- **Torn tails.** Both logs recover by dropping an incomplete last line, but they first read the whole file as UTF-8. A
  crash that cuts the last line inside a multi-byte character therefore makes opening fail instead of recovering. Every
  crash point recovers if and only if the appended line is ASCII and the completed file within the recovery limit
  (`OperationalJournal.EveryCrashRecoversIffAscii`).
- **Small journals.** A single retained record may exceed the configured size, and a crash while the next one is appended
  can then leave a file above the recovery limit, which no opening accepts. This happens exactly when one record is
  retained and it, the new one and 333 bytes of envelopes and header exceed that limit (`JournalRuns.FinalCrashIff`); no
  crash is final if and only if the configured size is at least 983,373 bytes (`JournalRuns.NoCrashIsFinalIff`).
- **Idempotency file limit.** Appending never checks the 64 MiB limit that opening enforces; past it the store cannot be
  reopened (`IdempotencyRuns.ReopeningShowsLiveRecords`).
- **Bare idempotency marker.** A file that holds the format marker without its newline opens as an empty store and is left
  as it is; the next insert continues the marker's line, and the file never opens again
  (`IdempotencyLog.BareMarkerBreaks`). Of all files that open, exactly those with a complete first line still open after
  an insert (`IdempotencyLog.OpensAfterInsert`).
- **Lease renewal.** A renewal may shorten a lease. On a clock that never runs back, no lease of the run is shortened if
  and only if no later request, after any step of it, can make validity windows of different holders overlap
  (`ServiceLeases.DisjointExactlyWhenNeverShortened`). Fencing by epoch holds regardless.
- **Joined keys.** Slot and instance keys are joined with colons. They separate scopes when tenant and cluster ids hold
  no colon, which the identifier constructors guarantee, and merge them otherwise (`ServiceLeases.KeysSeparateScopes`,
  `ServiceLeases.ColonMergesScopes`).
- **Server clock.** On any clock discovery shows an instance if and only if it is present by the eager definition and was
  never overdue: no saved operation since its registration came more than the retention after the touch before it
  (`Presence.SeenExactlyWhenNeverOverdue`). On a clock that never runs back the second part follows from the first
  (`Presence.PresentIsNeverOverdue`); a clock that steps back can lose an instance (`Presence.BackwardClockLosesPresence`).
- **Compacted payloads without a limit.** Sealing accepts a compacted payload without a payload limit, and no opener
  without a limit can read the result (`DntEnvelope.ReopensUnderItsOwnLimit`).
- **Two open paths.** They succeed on the same inputs with the same results, and fail with different errors on exactly
  the admitted inputs whose ciphertext is shorter than a tag (`DntEnvelope.OpenOwned`, `DntEnvelope.ShortCiphertextFails`).
- **File reader.** It refuses on size what `open` accepts only when there is no limit, or one so large that adding
  131,092 to it reaches the end of the 64-bit range (`DntMigration.ReadVerified`).
- **Detached optional values** are known to the parser and not to the completer, which reads them as words of their own.
  On any word list the two agree after every turn of the parser if and only if the completer passes over each such value
  without a change (`CliCompletion.AgreesExactlyWhenDetachedIgnored`), which it never does with a plain word
  (`CliCompletion.IgnoredWords`).
- **Printed command lines.** In every valid specification an accepted command line, printed in a canonical form, parses
  back if and only if every command name entered reads as a word where it is entered, and no option printed without a
  value is followed by a word that it takes as a separate one (`CliRendering.StableExactlyWhenPrintable`). Names that
  start with a dash pass validation and can be entered through an alias only: an alias `x` of a command `-x` gives a line
  that does not parse back (`CliRendering.DashedNameDoesNotParseBack`). Nor does the line of a bare `--color` with a
  detached optional value, which takes the `--` that ends the options (`CliRendering.SwallowedDashesDoNotParseBack`).
- **Clock of the idempotency store.** On any clock, reopening shows what memory showed and, beyond that, exactly those
  records whose expiry was seen before and is undone by a clock that has gone back
  (`IdempotencyRuns.ReopeningShowsLiveRecords`, `IdempotencyRuns.BackwardClockRevives`).
- **Reused request ids.** An answered gateway request keeps its cleanup guard until its task ends. If its id is registered
  again before that, the guard drops the new request's channel, which is then never answered
  (`GatewayRouter.LateCleanupCancelsReusedId`). In every run a waiting request can lose its channel unanswered to anything
  but its own task if and only if another live task holds its key (`GatewayRouter.CancelledExactlyByOtherGuards`), and a
  run has no point at which that can happen if and only if every registration it accepted used an id that was fresh among
  live tasks (`GatewayRouter.NothingCancelsExactlyWhenFresh`).
- **Redacting twice.** The seven passes change nothing the second time, but the returned text may change: truncation can
  cut through the replacement of a secret, and what is left of it followed by the truncation mark counts as a secret. A
  returned text is stable if and only if it was not cut, or what was kept does not end with a marker and a beginning of
  its replacement (`RedactionTwice.UnchangedExactlyWhenUncut`, `RedactionTwice.CutSecretChanges`).

## Assumptions

JSON serializers, digests, the cipher, the compressor, codecs, key providers and key validators are function-valued
fields of a datatype (`Format`, `Env`, `Suite`), constrained by a `Lawful` predicate wherever a proof needs it: parsing
undoes printing, printed lines are plain, decryption undoes encryption and costs sixteen bytes, and the line of a journal
envelope is as long as its record, the digits of its sequence number, its two digests (64 hexadecimal characters each, the
first record's previous one empty) and 52 characters of field names and punctuation. The journal's laws are required only
of envelopes that can occur: 64-bit sequence numbers and hexadecimal digests. Clocks, nonces,
iteration order of hash maps and the moments of crashes are parameters or arbitrary choices. A file is a sequence of
bytes, an append may stop after any byte, a rename is atomic, and a held lock makes an operation one step.

## Model

| member | source | states |
|---|---|---|
| ServiceLeases.ControlPlane.AcquireOrRenew | crates/appcore-control-plane/src/memory.rs:129-175 | renews the holder's live lease, refuses another core while it lives, otherwise grants the next epoch of a slot whose last epoch survives releases; errors for a zero lifetime, clock overflow and epoch exhaustion |
| ServiceLeases.ControlPlane.ReleaseLease | crates/appcore-control-plane/src/memory.rs:177-198 | clears the lease only for its own holder and epoch, keeps the epoch counter, ignores unknown slots, conflicts otherwise |
| ServiceLeases.LeadershipGuard.SetServiceLease | crates/appcore-control-plane/src/leadership.rs:33-74 | a guard refuses a lease of another service, of an older epoch in the same scope, or of the same epoch with another holder, and is then unchanged |
| ServiceLeases.RunsAreSafe | crates/appcore-control-plane/src/memory.rs:129-198 | every reachable world: grants of a slot are ordered, slots are ahead of every copy, guards hold only granted copies, accepted writes are fenced and backed by a grant |
| ServiceLeases.FencingSafety | crates/appcore-control-plane/src/leadership.rs:85-111 | whatever copies guards are fed, late, repeated or reordered, accepted epochs never decrease and each has one holder: a deposed holder never writes after its successor |
| ServiceLeases.LeadershipGuard.CheckServiceWritePermission | crates/appcore-control-plane/src/leadership.rs:85-111 | no lease, expired and allowed each exactly under their conditions on the held lease, the time and the minimum epoch |
| ServiceWrites.WriteAcceptedExactlyWhen | crates/appcore-control-plane/src/leadership.rs:85-111 | a write is accepted exactly when its guard holds an unexpired lease of exactly this scope and core and no later epoch was accepted, and is recorded with that lease's epoch and the time |
| ServiceWrites.EveryWriteIsCovered | crates/appcore-control-plane/src/leadership.rs:94-99 | in every run each accepted write was made under a granted copy of its scope, holder and epoch that had not expired |
| ServiceWrites.OneWriterAtATime | crates/appcore-control-plane/src/leadership.rs:94-99 | on one clock, in a run that shortens no lease, two holders of one scope with unreleased leases never have writes accepted at the same time |
| ServiceWrites.HolderCanWrite | crates/appcore-control-plane/src/memory.rs:129-175 | whatever happened before, a core that is granted a lease and delivered its copy can write until it expires |
| ServiceWrites.DeliveredExactlyWhen | crates/appcore-control-plane/src/leadership.rs:33-74 | a delivered copy is held unless the guard's lease of that scope is later, or equal with another holder |
| ServiceWrites.GrantedExactlyWhen | crates/appcore-control-plane/src/memory.rs:129-175 | a request is granted exactly when its lifetime fits the clock, no other core's lease is valid and an epoch is left; what is granted, how anything else is refused, and that no other slot changes |
| ServiceWrites.ReleasedSlotIsFree | crates/appcore-control-plane/src/memory.rs:177-198 | after its holder's release any core of the scope gets the next epoch at once |
| ServiceLeases.EpochsStrictlyIncrease | crates/appcore-control-plane/src/memory.rs:136-175 | on any clock and across releases, a later grant of a slot is a renewal of the same lease or has a strictly greater epoch |
| ServiceLeases.WindowsAreDisjoint | crates/appcore-control-plane/src/memory.rs:136-210 | with a clock that never runs back and no granted renewal that shortens a lease, unreleased copies of one service with different holders have disjoint validity windows; rejected requests may occur |
| ServiceLeases.FixedTtlWindowsAreDisjoint | crates/appcore-control-plane/src/memory.rs:136-210 | one lifetime for all requests is enough for disjoint windows |
| ServiceLeases.ShorteningOverlaps | crates/appcore-control-plane/src/memory.rs:141-149 | conversely, after any renewal that shortens a lease every other core can take over, without shortening anything itself, and its window overlaps an older copy |
| ServiceLeases.DisjointExactlyWhenNeverShortened | crates/appcore-control-plane/src/memory.rs:129-198 | on a clock that never runs back, a run shortens no lease if and only if no request after any of its steps, shortening nothing itself, makes windows of different holders overlap |
| ServiceLeases.KeysSeparateScopes | crates/appcore-control-plane/src/memory.rs:221-232 | joined keys are equal exactly for equal scopes when tenant and cluster ids hold no colon |
| ServiceLeases.ColonMergesScopes | crates/appcore-control-plane/src/memory.rs:221-232 | with a colon in an id two different scopes share one slot |
| Presence.InMemoryControlPlane.PruneRegistrations | crates/appcore-control-plane/src/memory.rs:48-55 | a registration stays, unchanged, exactly when it is not older than the cutoff, and the answer is how many went |
| Presence.InMemoryControlPlane.Heartbeat | crates/appcore-control-plane/src/memory.rs:78-95 | refreshes time and mode of a registration that is there and acknowledges even when none is |
| Presence.InMemoryControlPlane.DiscoverPeers | crates/appcore-control-plane/src/memory.rs:97-127 | a peer is listed exactly when some other registration of the caller's tenant and cluster says so, routable in three modes only |
| Presence.FileControlPlane.Open | crates/appcore-control-plane/src/file.rs:61-83 | refuses a zero retention, keeps an existing state, starts empty otherwise |
| Presence.FileControlPlane.Register | crates/appcore-control-plane/src/file.rs:164-178 | load, stamp with server time, prune, insert, save; nothing changes on disk when the file is not replaced, and the report is returned exactly when saving ends well |
| Presence.FileControlPlane.Heartbeat | crates/appcore-control-plane/src/file.rs:180-194 | prunes before touching, so a silent instance is not revived by a heartbeat; acknowledged exactly when saving ends well |
| Presence.FileControlPlane.DiscoverPeers | crates/appcore-control-plane/src/file.rs:196-210 | answers from the pruned state once it is saved, and with an error when saving does not end well |
| Presence.RunAgrees | crates/appcore-control-plane/src/file.rs:139-210 | over any run with crashes and on any clock the disk holds a key exactly when it was registered and never overdue at a saved operation since, with what was last reported |
| Presence.SeenExactlyWhenNeverOverdue | crates/appcore-control-plane/src/file.rs:139-210 | on any clock discovery sees a key if and only if its chain of touches has no gap over the retention up to now and no saved operation found it overdue |
| Presence.PresentIsNeverOverdue | crates/appcore-control-plane/src/file.rs:139-143 | on a clock that never runs back the second condition follows from the first |
| Presence.DiscoveryOnAnyClock | crates/appcore-control-plane/src/file.rs:196-210 | the directory of any run on any clock holds exactly the caller's peers that were last reported so, are present and were never overdue |
| Presence.DiscoveryIsEager | crates/appcore-control-plane/src/file.rs:196-210 | on a clock that never runs back it holds exactly the caller's peers whose register-then-heartbeat chain has no gap over the retention up to now |
| Presence.BackwardClockLosesPresence | crates/appcore-control-plane/src/file.rs:139-143 | any instance discovered by anyone after its retention is gone from disk although, at an earlier clock reading, it is present |
| OperationalJournal.Journal.Open | crates/appcore-core/src/operational_journal.rs:77-117 | refuses with the loader's error, otherwise compacts exactly when a tail was dropped or a limit is exceeded and leaves the file untouched else; the journal invariant holds exactly when it compacted or the file was already the encoding of its records |
| OperationalJournal.LoadState | crates/appcore-core/src/operational_journal.rs:226-257 | the loop over the complete lines computes the specified load, errors included |
| JournalChain.LoadsExactlyChains | crates/appcore-core/src/operational_journal.rs:226-277 | of all byte files exactly those load that are within the limit, readable, start with the header, and whose non-empty complete lines parse to envelopes numbered from one, each naming the hash before it and hashed over its number, that hash and its record; what is loaded are their records |
| JournalChain.BrokenLinkIsRefused | crates/appcore-core/src/operational_journal.rs:259-277 | a file whose lines all parse is refused as a broken chain as soon as one of these equations fails |
| JournalChain.RefusedExactlyWhen | crates/appcore-core/src/operational_journal.rs:226-277 | each refusal exactly under its condition: size, encoding, header, and the first line that does not parse or does not follow |
| JournalChain.TornExactlyWhen | crates/appcore-core/src/operational_journal.rs:329-337 | a tail was dropped exactly when the file does not end with a newline |
| OperationalJournal.Journal.Append | crates/appcore-core/src/operational_journal.rs:169-199 | refuses oversized records unchanged; otherwise the whole history grows by one, the file equals the encoding of the records, and these are the longest suffix of the history within both limits |
| OperationalJournal.Journal.Compact | crates/appcore-core/src/operational_journal.rs:201-215 | both loops end at the longest suffix within the limits, or the last record alone, and the file is its encoding |
| OperationalJournal.Journal.Rewrite | crates/appcore-core/src/operational_journal.rs:217-304 | re-encoding from scratch renumbers and rechains the retained records |
| OperationalJournal.EncodedLoads | crates/appcore-core/src/operational_journal.rs:226-304 | an encoded file loads back as its records, sequence and last hash, with nothing torn |
| OperationalJournal.TornFileLoads | crates/appcore-core/src/operational_journal.rs:226-257 | what a crash after any number of appended bytes loads as: the old records, the new ones after the newline, or a refusal inside a character |
| OperationalJournal.EveryCrashRecoversIffAscii | crates/appcore-core/src/operational_journal.rs:329-359 | every crash point of an append recovers exactly when the completed file is within the limit and the line is ASCII |
| OperationalJournal.RetainedIsUnique | crates/appcore-core/src/operational_journal.rs:201-215 | limits and history determine what is retained |
| OperationalJournal.RetainedThenAppended | crates/appcore-core/src/operational_journal.rs:169-215 | compacting the retained records after an append equals compacting the whole history |
| OperationalJournal.RetainedIsLongest | crates/appcore-core/src/operational_journal.rs:201-215 | dropping from the front stops at the longest fitting suffix |
| OperationalJournal.CrashReopensBeforeOrAfter | crates/appcore-core/src/operational_journal.rs:169-224 | a crash anywhere in an append or its compaction reopens as exactly the records before or after it, except inside a character |
| OperationalJournal.SuffixIsShorter | crates/appcore-core/src/operational_journal.rs:279-304 | renumbering never makes a suffix longer than the whole |
| JournalRuns.RunsRetainTheHistory | crates/appcore-core/src/operational_journal.rs:77-224 | over any number of appends, crashes inside them or their compaction, and reopenings that succeed, the records on disk are the longest suffix within both limits of all records whose newline ever reached the disk, or the last of them |
| JournalRuns.CrashReopens | crates/appcore-core/src/operational_journal.rs:95-117 | in every run, opening after a crash gives the records before or after the append, or refuses exactly for the recovery limit or a cut character |
| JournalRuns.ReopensTheSame | crates/appcore-core/src/operational_journal.rs:77-117 | reopening what is retained gives back the same records |
| JournalRuns.NextLineLength | crates/appcore-core/src/operational_journal.rs:183-199 | exact length of the line an append adds to a journal of given records |
| JournalRuns.FinalIffWholeAppend | crates/appcore-core/src/operational_journal.rs:95-99 | some crash of an append leaves a file above the recovery limit exactly when the completed append does |
| JournalRuns.FinalCrashIff | crates/appcore-core/src/operational_journal.rs:95-99 | that happens exactly when a single record is retained and the two records with 333 bytes exceed the recovery limit |
| JournalRuns.NoCrashIsFinalIff | crates/appcore-core/src/operational_journal.rs:95-99 | no crash whatever leaves such a file if and only if the configured size is at least 983,373 bytes |
| JournalRuns.SafeRunsReopen | crates/appcore-core/src/operational_journal.rs:77-224 | from that size on every crash of every run reopens unless the cut falls inside a character |
| TextFile.TornAppend | crates/appcore-core/src/operational_journal.rs:329-337 | of a text with a torn line exactly the complete lines remain, and it is readable exactly when the cut is between characters |
| TextFile.EveryCutValidIffAscii | crates/appcore-core/src/operational_journal.rs:339-359 | every prefix of a text is valid exactly when the text is ASCII |
| TextFile.OneMoreLine | crates/appcore-core/src/operational_journal.rs:226-247 | a line more in a text is one more in its list of lines, without the carriage return it may end with |
| TextFile.CompleteLinesAndRest | crates/appcore-core/src/operational_journal.rs:329-337 | a text is its complete lines and a rest without a newline, which counts as torn unless it is empty |
| Utf8.ValidExactlyWhen | crates/appcore-core/src/operational_journal.rs:339-359 | a text is valid exactly when it is the UTF-8 encoding of some Unicode scalar values, section 3 of RFC 3629 |
| IdempotencyLog.FileStore.Open | crates/appcore-core/src/idempotency.rs:149-170 | for any file or none: passes loader errors on, otherwise shows the loaded records, rewrites after a torn tail and leaves the file as it is else; a zero lifetime means none |
| IdempotencyLog.LoadEntries | crates/appcore-core/src/idempotency.rs:233-257 | the loop over the trimmed complete lines computes the specified load, errors included |
| IdempotencyFiles.LoadsExactlyRecords | crates/appcore-core/src/idempotency.rs:233-257 | of all files with the header exactly those open whose non-blank trimmed lines are all objects that parse to records under valid keys |
| IdempotencyFiles.ViewShowsLastResolved | crates/appcore-core/src/idempotency.rs:243-255 | what is shown is the last resolved record of every key that has one |
| IdempotencyFiles.RefusedExactlyWhen | crates/appcore-core/src/idempotency.rs:233-331 | how every other file is refused: size, encoding, the first line that is no record or has an invalid key; without the header only the bare marker opens |
| IdempotencyFiles.TrimTakesBlanks | crates/appcore-core/src/idempotency.rs:244-247 | trimming takes off white space, and all of it, at both ends |
| IdempotencyFiles.SpacesAreWhiteSpace | crates/appcore-core/src/idempotency.rs:244-247 | its white space are exactly the characters with the Unicode property |
| IdempotencyLog.FileStore.Get | crates/appcore-core/src/idempotency.rs:190-201 | a record is shown exactly while now is at most its creation time plus the lifetime, and for ever without a lifetime or a creation time |
| IdempotencyLog.FileStore.Insert | crates/appcore-core/src/idempotency.rs:203-208 | validates the key, appends one line and updates memory; an invalid key changes nothing |
| IdempotencyLog.FileStore.Remove | crates/appcore-core/src/idempotency.rs:218-223 | forgets the key and rewrites the file with one line per remaining record |
| IdempotencyLog.FileStore.Compact | crates/appcore-core/src/idempotency.rs:177-186 | drops exactly the expired records, reports how many and rewrites |
| IdempotencyLog.FileStore.Rewrite | crates/appcore-core/src/idempotency.rs:274-315 | the new file holds each record in memory once and nothing else |
| IdempotencyLog.ReadableLoads | crates/appcore-core/src/idempotency.rs:233-257 | a file of whole readable lines opens without a rewrite unless it is over the size limit |
| IdempotencyLog.CrashedAppendLoads | crates/appcore-core/src/idempotency.rs:233-341 | on any readable file, loading after a crash at any byte of an append: without the record, with it after its newline, or a refusal for size or a cut character |
| IdempotencyLog.BareMarkerBreaks | crates/appcore-core/src/idempotency.rs:317-331 | a file that is the bare marker opens as an empty store and is refused as corrupt after any insert |
| IdempotencyLog.OpensAfterInsert | crates/appcore-core/src/idempotency.rs:203-331 | of all files that open, torn or whole, exactly those with a complete first line still open after an insert within the size limit |
| IdempotencyLog.RewrittenReads | crates/appcore-core/src/idempotency.rs:274-315 | a rewritten file shows exactly the resolved records in memory |
| IdempotencyRuns.RunsAreSound | crates/appcore-core/src/idempotency.rs:177-257 | over every run of the store's effects, on any clock and any file that opens with a complete first line, restarts and torn appends included, memory and file agree on resolved records except for those that had expired by the latest time seen |
| IdempotencyRuns.ReopeningShowsLiveRecords | crates/appcore-core/src/idempotency.rs:149-257 | reopening with the same lifetime, at any time, shows exactly the live resolved records of memory, none pending, and those of the file alone that had expired by the latest time and have not now; it fails only for size |
| IdempotencyRuns.BackwardClockRevives | crates/appcore-core/src/idempotency.rs:149-257 | a run on which a clock that goes back brings a record back whose key was reserved after its expiry |
| IdempotencyRuns.CrashShowsBeforeOrAfter | crates/appcore-core/src/idempotency.rs:259-272 | from the latest time on, a crash inside an append shows the records before it or with it, and refuses exactly for size or a cut character |
| CommandController.RuntimeController.Pre | crates/appcore-core/src/controller.rs:103-170 | lifecycle refusal, replay, conflict and pending answers in the code's order, reservation of a new key |
| CommandController.RuntimeController.Post | crates/appcore-core/src/controller.rs:172-257 | stores a resolved outcome or frees the key, then emits the accepted result's events in order with the command's trace |
| CommandController.NoServerErrors | crates/appcore-core/src/controller.rs:136-139 | only status 200 is ever stored, so the branch for statuses of 400 and above is dead |
| CommandController.RunsAreSound | crates/appcore-core/src/controller.rs:86-206 | every interleaving: in-flight commands hold pending reservations, completed ones their record, every stored key is accounted for |
| CommandController.AtMostOnce | crates/appcore-core/src/controller.rs:86-257 | in every interleaving at most one execution per key is in flight, at most one ever completes, and no key emits events twice |
| CommandController.CompletedNeverExecutes | crates/appcore-core/src/controller.rs:115-158 | no command in flight has the key of any completed one |
| CommandController.LaterDispatchesReplay | crates/appcore-core/src/controller.rs:115-158 | after completion every ready dispatch with that key replays the same result for the same payload digest, conflicts for another, and changes nothing |
| CommandController.ProceedsExactlyWhenNew | crates/appcore-core/src/controller.rs:103-170 | while running or degraded, a dispatch with a valid key proceeds exactly when the key is neither executing nor completed, and then reserves it |
| CommandController.ExecutingKeysAreRefused | crates/appcore-core/src/controller.rs:115-134 | a dispatch whose key is executing is refused as pending for the same payload digest and as a conflict for another |
| CommandController.UnkeyedAndInvalid | crates/appcore-core/src/controller.rs:103-170 | a ready runtime runs every command without a key and refuses unknown keys that are not valid |
| CommandController.NotReadyRefuses | crates/appcore-core/src/controller.rs:107-111 | while restricted or not ready every command is answered with a rejection, its message and no events, and the store is unchanged |
| CommandController.OnlyReadyRuntimesExecute | crates/appcore-core/src/controller.rs:208-216 | in every run whatever is in flight, completed or emitted began while the runtime was running or degraded |
| CommandController.EventsKeepOrTakeTraces | crates/appcore-core/src/controller.rs:218-240 | an accepted result's events reach the bus all and in order, each with its own trace or else the command's; nothing else does |
| CommandController.OutcomeIsStored | crates/appcore-core/src/controller.rs:172-206 | what the second phase stores or frees, and its one refusal |
| CommandController.FinishedExecution | crates/appcore-core/src/controller.rs:172-206 | an execution that ends leaves those in flight, and its result and events are recorded |
| DurableDispatch.RunsAreSound | crates/appcore-core/src/controller.rs:103-257 | the controller over its file store, with restarts and crashes at any byte of any append: its invariant holds and the file shows exactly the resolved records |
| DurableDispatch.CompletesOnceAcrossRestarts | crates/appcore-core/src/controller.rs:103-257 | across restarts and torn appends at most one execution per key ever completes, and no completed key is executing |
| DurableDispatch.ReplaysAcrossRestarts | crates/appcore-core/src/controller.rs:115-158 | what completed is replayed for the same payload digest, and conflicts for another, at every later point of the run, whatever restarts and crashes lie between |
| DntHeader.EncodeHeader | crates/appcore-dnt/src/header.rs:134-174 | pushing the fields and patching bytes 10 to 13 yields the canonical layout, or the code's size errors |
| DntHeader.Writer.PatchLength | crates/appcore-dnt/src/header.rs:172-173 | overwriting the length field changes nothing else |
| DntHeader.ParseHeader | crates/appcore-dnt/src/header.rs:194-243 | the cursor parser equals the functional one, errors and their order included |
| DntHeader.InspectHeader | crates/appcore-dnt/src/header.rs:177-192 | checks magic, version and length bounds, then parses exactly the announced bytes |
| DntHeader.Reader.NextOptionalText | crates/appcore-dnt/src/header.rs:325-334 | a zero length is no text, invalid UTF-8 or a short input a format error |
| DntHeader.Reader.NextNames | crates/appcore-dnt/src/header.rs:210-219 | takes and checks the five identifiers in order |
| DntHeader.TakesNumber | crates/appcore-dnt/src/header.rs:245-306 | taking a number yields a value exactly when its big-endian bytes were put there |
| DntHeader.TakesOptionalText | crates/appcore-dnt/src/header.rs:265-334 | taking an optional text yields it exactly when it is takeable and was put there |
| DntHeader.InspectIff | crates/appcore-dnt/src/header.rs:134-243 | inspection returns a header exactly on inputs that start with the bytes of that well-formed header |
| DntHeader.EncodedInspects | crates/appcore-dnt/src/header.rs:134-243 | an encoded header followed by any bytes inspects to the encoded fields |
| DntHeader.AcceptedReencodes | crates/appcore-dnt/src/header.rs:134-243 | an accepted header re-encodes to exactly the bytes consumed |
| DntHeader.PrefixFree | crates/appcore-dnt/src/header.rs:177-243 | no accepted header is a proper prefix of another |
| DntHeader.NamesAre | crates/appcore-dnt/src/ids.rs:63-80 | which identifiers there are of each kind, by their lengths and characters |
| DntEnvelope.EncodePlaintext | crates/appcore-dnt/src/plaintext.rs:16-27 | length prefix, metadata, payload; refuses metadata beyond 32 bits |
| DntEnvelope.PlaintextReads | crates/appcore-dnt/src/plaintext.rs:29-56 | the ranges read from an encoded plaintext give back metadata and payload |
| DntEnvelope.DecryptOwnedInPlace | crates/appcore-dnt/src/cipher.rs:60-85 | overwrites the ciphertext region with the plaintext and returns its end, refusing fewer bytes than a tag |
| DntEnvelope.AuthenticateOwned | crates/appcore-dnt/src/model.rs:326-387 | same verdict as the copying path, with the payload as a range of the caller's buffer |
| DntEnvelope.TakePayloadBuffer | crates/appcore-dnt/src/model.rs:183-193 | the overlapping left shift returns exactly the payload and clears what is behind it |
| DntEnvelope.OpenOwned | crates/appcore-dnt/src/model.rs:123-387 | returns exactly what the simple open returns, except the error on ciphertexts shorter than a tag |
| DntOpening.OpensExactlyWhen | crates/appcore-dnt/src/model.rs:105-324 | an envelope opens to a content exactly when its header is addressed to the caller, the codec matches, size, ciphertext and key are there, the rest decrypts to the announced metadata and payload with the announced digest, and that expands and decodes within the limit |
| DntOpening.RefusedBeforeDecryption | crates/appcore-dnt/src/model.rs:389-413 | context, codec, size, missing ciphertext and key are refused in this order, each with its error |
| DntOpening.RefusedForMismatch | crates/appcore-dnt/src/model.rs:291-313 | other lengths or another payload digest than announced are refused as not authentic |
| DntOpening.RefusedForItsPlaintext | crates/appcore-dnt/src/plaintext.rs:29-56 | what does not decrypt, or not to something that splits, is refused with its error |
| DntOpening.RefusedForItsPayload | crates/appcore-dnt/src/compression.rs:64-91 | a payload that expands beyond the limit or not cleanly, or does not decode, is refused with its error |
| DntOpening.ShortExactlyWhen | crates/appcore-dnt/src/cipher.rs:60-85 | the inputs on which the two paths report different errors are exactly the unlocked ones with less than a tag of ciphertext |
| DntOpening.SealsExactlyWhen | crates/appcore-dnt/src/model.rs:28-103 | a payload is sealed to an envelope exactly when it is stored within the limit, key, nonce and header are there and the cipher works, and the envelope is that header and that ciphertext |
| DntOpening.NotStoredInOrder | crates/appcore-dnt/src/model.rs:28-60 | how a payload is refused before a key is asked for, first reason first |
| DntOpening.NotSealedInOrder | crates/appcore-dnt/src/model.rs:60-103 | how a stored payload is refused, first reason first, or what it is sealed to |
| DntEnvelope.ShortCiphertextFails | crates/appcore-dnt/src/model.rs:274-324 | on those inputs the simple open fails too, with an authentication error: successes coincide |
| DntEnvelope.SealThenOpen | crates/appcore-dnt/src/model.rs:28-272 | opening what was sealed returns payload, metadata and the chosen header fields exactly when the opener's limit covers every form of the payload, and is refused for size otherwise |
| DntEnvelope.ReopensUnderItsOwnLimit | crates/appcore-dnt/src/compression.rs:64-91 | under the sealing limit it opens exactly unless it is compacted without a limit |
| DntEnvelope.OpenedIsBounded | crates/appcore-dnt/src/model.rs:274-324 | an opened envelope is at most the payload limit plus 65536, 65536, 4 and 16 bytes long |
| DntMigration.ResealPreserves | crates/appcore-dnt/src/migration.rs:46-82 | a successful re-key or migration opens again under the same options with the same payload, metadata and chosen fields, under the new key id |
| DntOpening.ResealsExactlyWhen | crates/appcore-dnt/src/migration.rs:46-82 | a re-key or migration succeeds exactly when the input opens and its content is sealed under the key it names |
| DntMigration.ResealIsIdempotent | crates/appcore-dnt/src/migration.rs:46-82 | migrating its result with the same nonce for both seals reproduces it byte for byte; the program draws a fresh nonce for every seal, so this is about its deterministic part |
| DntMigration.ReadVerified | crates/appcore-dnt/src/io.rs:30-93 | the size-guarded file reader succeeds exactly where open does, given a limit away from the end of the 64-bit range |
| CliSpec.ValidateCommands | crates/appcore-args/src/spec_validation.rs:51-67 | accepts exactly the lists whose names and aliases are valid and pairwise distinct |
| CliSpec.ValidateOption | crates/appcore-args/src/spec_validation.rs:91-128 | accepts exactly the options with valid names, no values on flags and valid enumerations |
| CliSpec.ValidateOptions | crates/appcore-args/src/spec_validation.rs:69-144 | accepts exactly the options distinct from each other and from inherited ones whose relations name other visible options |
| CliSpec.ValidateArguments | crates/appcore-args/src/spec_validation.rs:146-176 | accepts exactly distinct names, required before optional, and only the last one repeated |
| CliSpec.ValidatePossible | crates/appcore-args/src/spec_validation.rs:178-191 | accepts exactly non-empty, distinct values |
| CliSpec.ValidateScope | crates/appcore-args/src/spec_validation.rs:27-49 | the recursion checks every scope of the command tree with its inherited options |
| CliSpec.ValidateSpec | crates/appcore-args/src/spec_validation.rs:16-25 | accepts exactly the valid specifications |
| CliParser.Parser.EnterMatching | crates/appcore-args/src/parser.rs:139-151 | enters the first command matching by name or alias, recording its canonical name |
| CliParser.Parser.Push | crates/appcore-args/src/parser.rs:189-214 | refuses a duplicate of a non-repeatable option or an unacceptable value unchanged |
| CliParser.Parser.ParseLongOption | crates/appcore-args/src/parser.rs:297-328 | name, inline or following value, and the index to go on from |
| CliParser.Parser.ParseShortOptions | crates/appcore-args/src/parser.rs:330-357 | a cluster of flags whose last option may take the remainder or the next word |
| CliParser.Parser.PushWord | crates/appcore-args/src/parser.rs:216-251 | checks a positional against the next declared argument |
| CliParser.Parser.Run | crates/appcore-args/src/parser.rs:89-284 | the index-jumping loop and the final rules compute the specified parse |
| CliParser.Parser.FinishParse | crates/appcore-args/src/parser.rs:272-284 | the loops over visible options and arguments compute the final rules |
| CliParser.Parser.ValidateOptionRules | crates/appcore-args/src/parser.rs:394-430 | the loop over the visible options finds the first broken rule |
| CliFinalRules.AcceptedExactlyWhen | crates/appcore-args/src/parser.rs:89-430 | a command line is accepted exactly when the specification is valid, the loop ends well, and a visible terminal option was given or no command is due, every required argument has a positional, every required option was given, and every given one has no given conflict and all its requirements |
| CliFinalRules.RefusedInOrder | crates/appcore-args/src/parser.rs:272-430 | the errors in the code's order: the loop's, the missing command, the missing argument, the first visible option that breaks a rule |
| CliFinalRules.VisibleAreThoseInScope | crates/appcore-args/src/parser.rs:167-173 | visible options are those of the root and of every command entered |
| CliGrammar.LongFound | crates/appcore-args/src/parser.rs:175-180 | a long option is found exactly as the last visible one of its name |
| CliGrammar.ShortFound | crates/appcore-args/src/parser.rs:182-187 | likewise for short options |
| CliGrammar.CommandMatched | crates/appcore-args/src/parser.rs:139-151 | a command is matched exactly as the first in scope with that name or alias |
| CliGrammar.ArgumentForNext | crates/appcore-args/src/parser.rs:253-258 | which argument the next positional is checked against |
| CliGrammar.NegativeExactlyWhen | crates/appcore-args/src/parser.rs:260-270 | when a dashed word is a negative positional |
| CliGrammar.ValueTaken | crates/appcore-args/src/value_parser.rs:15-99 | which value an option takes, from where, and when it is refused or missing |
| CliGrammar.AcceptedExactlyWhen | crates/appcore-args/src/value_parser.rs:44-74 | a value is accepted exactly when it is of the declared type and among the enumerated values, if there are any |
| CliGrammar.UnsignedExactlyWhen | crates/appcore-args/src/value_parser.rs:44-74 | unsigned values are exactly the decimal notations of 64-bit numbers |
| CliGrammar.SignedExactlyWhen | crates/appcore-args/src/value_parser.rs:44-74 | signed values are exactly the signed decimal notations of that range |
| CliGrammar.SplitAtFirstEquals | crates/appcore-args/src/parser.rs:303-306 | a long option is its name alone, or its name and its value around the first equals sign |
| CliGrammar.NamesAre | crates/appcore-args/src/spec_validation.rs:193-203 | which names and short options there are, by their characters |
| CliParser.WordAdvances | crates/appcore-args/src/value_parser.rs:15-42 | every turn moves the index forward and never past the end |
| CliCompletion.CompletionContext.AnalyzeWords | crates/appcore-args/src/completion.rs:121-136 | folds the one-word machine over the words until it stops |
| CliCompletion.CompletionContext.ConsumeWord | crates/appcore-args/src/completion.rs:138-166 | one step of the machine in all its branches |
| CliCompletion.CompletionContext.ConsumeCluster | crates/appcore-args/src/completion.rs:180-195 | reads a short cluster after trimming its dashes |
| CliCompletion.CompleterAgreesWithParser | crates/appcore-args/src/completion.rs:121-227 | on every word list the parser's loop accepts and in which the completer passes over the detached values, it ends with the same chain, positional count, used options and passthrough flag |
| CliCompletion.MissingValueIsPendingOption | crates/appcore-args/src/completion.rs:168-195 | if the parser stops only because the last option lacks its value, that option is the pending one, and any next word becomes its value or is refused |
| CliCompletion.AgreesExactlyWhenDetachedIgnored | crates/appcore-args/src/value_parser.rs:76-99 | on any word list of any specification, parser and completer agree after every turn of the parser if and only if the completer passes over every detached value the parser takes |
| CliCompletion.IgnoredWords | crates/appcore-args/src/completion.rs:138-195 | it passes over no plain word and no bare `--`; over a long option exactly when that is unknown, or used already and not left waiting for a value; over a short cluster exactly when it is no negative positional, every option it looks at was used already and none is left waiting |
| CliCompletion.AttachedAgrees | crates/appcore-args/src/completion.rs:121-227 | a specification without detached optional values never divides them |
| CliCompletion.DetachedValueDisagrees | crates/appcore-args/src/value_parser.rs:76-99 | every root option with a detached value, followed by a plain accepted word that is no command, is an input on which they disagree |
| CliRendering.ParsingIsStable | crates/appcore-args/src/parser.rs:89-284 | an accepted command line with readable names, in which no option takes the word printed after it, parses back to itself when printed |
| CliRendering.StableExactlyWhenPrintable | crates/appcore-args/src/parser.rs:89-284 | for every valid specification and every accepted command line those two conditions are exactly what makes it parse back |
| CliRendering.AttachedSwallowsNothing | crates/appcore-args/src/value_parser.rs:76-99 | without detached optional values no option takes the word printed after it, so readable names are all it takes |
| CliRendering.SwallowedDashesDoNotParseBack | crates/appcore-args/src/value_parser.rs:76-99 | every specification with one detached optional option that accepts `--`: given alone it is accepted with readable names, and its printed line parses to the option with value `--` |
| CliRendering.DashedNameDoesNotParseBack | crates/appcore-args/src/spec_validation.rs:193-203 | every valid specification whose one command is named like a short option accepts the command's plain alias, and its printed line is refused as an unknown option |
| Suggestion.EditDistance | crates/appcore-args/src/suggestion.rs:47-62 | the two swapped rows compute the least cost over all edit scripts |
| Suggestion.DistanceIsLeast | crates/appcore-args/src/suggestion.rs:47-62 | the recurrence is reached by some script and undercut by none |
| Suggestion.DistanceIsSymmetric | crates/appcore-args/src/suggestion.rs:47-62 | the distance is symmetric |
| Suggestion.TriangleInequality | crates/appcore-args/src/suggestion.rs:47-62 | the distance obeys the triangle inequality |
| Suggestion.ZeroOnlyOnEqual | crates/appcore-args/src/suggestion.rs:47-62 | it is zero only on equal words |
| Suggestion.ClosestIsFirstMinimum | crates/appcore-args/src/suggestion.rs:13-30 | the suggestion is the first admissible candidate least in distance, then length, and there is none exactly when no candidate is admissible |
| Suggestion.SuggestedExactlyWhen | crates/appcore-args/src/suggestion.rs:13-45 | among distinct candidates of at most 128 bytes within distance one, two or three by length, the one suggested is exactly the least in distance, then length, then position |
| Suggestion.ExactMatchWins | crates/appcore-args/src/suggestion.rs:13-45 | an exact match is always suggested |
| GatewayRegistry.CapabilityRegistry.Register | crates/appcore-gateway/src/registry.rs:31-42 | replaces a worker's advertisements and keeps both maps exact inverses without empty entries |
| GatewayRegistry.CapabilityRegistry.Deregister | crates/appcore-gateway/src/registry.rs:45-56 | removes a worker from both maps and drops capabilities nobody has left |
| GatewayRegistry.CapabilityRegistry.Resolve | crates/appcore-gateway/src/registry.rs:59-61 | lists exactly the workers that advertise the capability |
| GatewayRegistry.CapabilityRegistry.AllCapabilities | crates/appcore-gateway/src/registry.rs:64-66 | lists exactly the capabilities that some worker advertises |
| GatewayRegistry.IndexIsDetermined | crates/appcore-gateway/src/registry.rs:17-21 | one direction of the index determines the other |
| GatewayTenant.TenantState.AddWorker | crates/appcore-gateway/src/tenant.rs:73-93 | replaces a connection in its slot with its advertisements, or refuses at the limit; registered workers stay exactly the live connections |
| GatewayTenant.TenantState.RemoveWorkerIfCurrent | crates/appcore-gateway/src/tenant.rs:103-119 | removes only the connection of that generation |
| GatewayTenant.RunsStayConsistent | crates/appcore-gateway/src/tenant.rs:73-119 | over any sequence of connects, replacements, teardowns and prunes, registered workers are exactly the keys of live connections, within the limit |
| GatewayTenant.ReplacementSurvives | crates/appcore-gateway/src/socket.rs:122-126 | a replacement keeps serving what it advertised whatever stale teardowns and prunes come |
| GatewayTenant.OwnTeardownRemoves | crates/appcore-gateway/src/heartbeat.rs:63-77 | its own teardown removes it and every advertisement of its slot |
| GatewayTenant.OwnTeardownEndsTheRun | crates/appcore-gateway/src/heartbeat.rs:63-77 | so it does after any run of stale teardowns and other connections |
| GatewayRouter.Router.RegisterRequest | crates/appcore-gateway/src/router.rs:67-107 | chooses a worker of the core, checks cluster, capability, bound and id, and registers channel and metadata together |
| GatewayRouter.RegisteredExactlyWhen | crates/appcore-gateway/src/router.rs:67-107 | a request is registered exactly when its tenant is known or need not be, the chosen worker is live, in the asked cluster and advertises the asked capability, and there is room for its id; then exactly its channel, metadata, history and guard are added |
| GatewayRouter.Router.DispatchWorkerResponse | crates/appcore-gateway/src/router.rs:341-388 | delivers an admissible response once and forgets channel and metadata; anything else is orphaned |
| GatewayRouter.Router.CleanupPendingRequest | crates/appcore-gateway/src/router.rs:325-339 | forgets channel and metadata of one key |
| GatewayRouter.Router.DropPendingCleanup | crates/appcore-gateway/src/router.rs:304-323 | a task's guard cleans up its key once, as the task ends |
| GatewayRouter.GivingUpAndEnding | crates/appcore-gateway/src/router.rs:297-339 | what giving up and the end of a task forget, that giving up keeps the task's guard, and that a guard acts once |
| GatewayRouter.WorkerStepsStayInTheirTenant | crates/appcore-gateway/src/tenant.rs:73-119 | connections and teardowns change one tenant's workers and nothing that waits; a teardown creates no tenant |
| GatewayRouter.RunsAreSafe | crates/appcore-gateway/src/router.rs:51-388 | in every interleaving channels and metadata have the same keys, pending counts stay within the bound, no channel is answered twice and every answer matches its registration |
| GatewayRouter.BoundResponsesComeFromTheChosenWorker | crates/appcore-gateway/src/router.rs:166-173 | a response through the worker-bound entry comes from the connection generation fixed at registration |
| GatewayRouter.AwaitedResponseIsDelivered | crates/appcore-gateway/src/router.rs:341-362 | an admissible response to a waiting request is delivered to it, and no other request is touched |
| GatewayRouter.DeliveredExactlyWhen | crates/appcore-gateway/src/router.rs:341-388 | in every run a response is delivered exactly when a request waits under its key, the bound connection is the chosen one, and a mesh response is well formed and within the limit; anything else changes nothing |
| GatewayRouter.AbandonedIsNeverAnswered | crates/appcore-gateway/src/router.rs:304-339 | a channel dropped unanswered is never answered afterwards |
| GatewayRouter.CancelledExactlyByOtherGuards | crates/appcore-gateway/src/router.rs:51-388 | in every run a waiting request can lose its channel unanswered to a step that is not its own task's cleanup if and only if the guard of another live task holds its key |
| GatewayRouter.NothingCancelsExactlyWhenFresh | crates/appcore-gateway/src/router.rs:67-339 | at no point of a run can a waiting request lose its channel to another task if and only if every accepted registration used a key that no live task held |
| GatewayRouter.LateCleanupCancelsReusedId | crates/appcore-gateway/src/router.rs:297-339 | from any state: a request is answered, its id is registered again, the first task's guard drops, and the second request is never answered whatever follows |
| Redaction.RedactMarker | crates/appcore-core/src/redaction.rs:44-68 | the cursor loop computes one pass |
| Redaction.RedactTextWithLimit | crates/appcore-core/src/redaction.rs:25-42 | bounded scan, seven passes, truncation |
| Redaction.FloorBoundary | crates/appcore-core/src/redaction.rs:85-91 | the longest prefix within a byte limit that splits no character |
| RedactionCharacters.LengthInBytes | crates/appcore-core/src/redaction.rs:74-91 | the length that limits and truncation count is the length of the text in UTF-8 |
| RedactionCharacters.DelimitersAre | crates/appcore-core/src/redaction.rs:70-72 | a value ends at Unicode white space or one of five marks |
| RedactionCharacters.FoldsAsciiLetters | crates/appcore-core/src/redaction.rs:44-68 | letters are compared without case, ASCII letters only |
| Redaction.PassIsClean | crates/appcore-core/src/redaction.rs:44-68 | a pass leaves its own marker clean and undoes no earlier pass |
| Redaction.NoSecretSurvives | crates/appcore-core/src/redaction.rs:30-40 | before truncation every occurrence of any marker, in any case, is followed by the end, a delimiter, or the replacement and then one of these |
| Redaction.PassMasksValuesOnly | crates/appcore-core/src/redaction.rs:49-67 | a pass masks delimiter-free values after a marker and keeps every other character |
| Redaction.PassesAreIdempotent | crates/appcore-core/src/redaction.rs:30-68 | the seven passes change nothing in a text they have produced |
| Redaction.ReturnedTextIsBounded | crates/appcore-core/src/redaction.rs:74-83 | a returned text has at most the limit's bytes, or eleven for smaller limits |
| Redaction.ReturnedTextIsSafe | crates/appcore-core/src/redaction.rs:74-83 | in every returned text a marker is followed by the end, a delimiter or an opening bracket |
| RedactionTwice.UnchangedExactlyWhenUncut | crates/appcore-core/src/redaction.rs:25-83 | redacting a returned text again changes nothing if and only if it was not cut or the kept part does not end with a marker and a beginning, from none to all, of its replacement |
| RedactionTwice.CutSecretChanges | crates/appcore-core/src/redaction.rs:74-83 | a family of inputs whose returned text ends with a marker and the truncation mark, and changes when redacted again |

## Left out

- Cipher, keyed digest, hash, compressor and JSON internals; the properties proofs need from them are stated as laws.
- File system calls, symbolic links, permissions, synchronisation to disk, and errors of single calls, among them an append that fails after writing some bytes while its process goes on.
- Zeroization, except where a returned buffer is cut: it does not affect results.
- `restore_from` and `backup_to` of the control plane: restoring may roll epochs back by design.
- Help, error and suggestion texts: errors are kinds without text.
- Candidate lists, descriptions and shell scripts of the completer: only the analysis of the words before the cursor is modelled.
- Audit entries of the controller and gateway metrics counters: they decide nothing.
- In-memory idempotency store without expiry: it is the map that the controller model runs on.
- Order of the peers in a directory and of the lines in a rewritten idempotency file: both are sets here, the program sorts them.
- Several gateway states in one process: the metadata keys of one state are modelled, without the state's address.
- Global limits on tenants, connections and clients, client connections, sessions and the resolver's choice by capability: each only refuses or reads.
- GatewayRouter.Router.RegisterRequest: works on tenant values instead of `TenantState` objects; the update in place of workers and registry is proved in `GatewayTenant` and `GatewayRegistry`, and a nested object graph is not modelled.
- GatewayRouter.RunsAreSafe: says nothing about timeouts, because a request that gives up is a cleanup step at any time.
- Validation of a routing envelope before registration: a pure check of its fields that only rejects.
- Redaction.RedactMarker: works on characters with their UTF-8 lengths instead of bytes; letter case is folded for ASCII only, as in the program.
- CommandController.AtMostOnce: is stated without a record lifetime, since an expired record lets its key execute again.
- DurableDispatch.RunsAreSound: has no record lifetime either, and no append that fails while its process goes on.
- DntEnvelope.SealThenOpen: the nonce is a parameter; distinct nonces and resistance to forgery are not modelled.
- `verify` and `write_atomic` of the container, which repeat the checks of `open` and discard its result.
