# Issuer Forge: a verified model

The repository issues tokens under a policy: a transfer hook decides every transfer, a quorum authorises
every action, an indexer mirrors what happened, an export hands the record to a regulator, and an
independent verifier checks that record against the chain. This project models those parts in Dafny and
proves what they promise each other, across the languages they are written in.

## The parts

- **The journal, from the chain to the verdict** (`indexer`, `journal_store`, `journal_routes`,
  `journal_file`, `chain_index`, `transactions`, `verify_journal`, `journal_end_to_end`, `events`). The
  indexer is a state machine with restarts and failures at any step; the table it leaves is final up to
  its horizon and mirrors the chain there. The export and the feed read that table while it grows. The
  verifier reads the file and the chain with any number of lanes finishing in any order. The main result:
  a file passes exactly when it is the chain's own journal of its mint and window, and what the export
  writes from an indexer's mirror is such a file.
- **The policy** (`policy_model`, `policy_layout`, `policy_decoding`, `policy_codec`, `transfer_rules`,
  `transfer_laws`, `policy_scenarios`, `refused_rules`, `program_layout`, `program_rules`, `hook_laws`,
  `program_velocity`). The 384-byte encoding both ways, the evaluator as the first failing check, its
  monotonicity, the scenarios, and the two Rust counterparts: the program's validator accepts exactly the
  image of the encoder, and the hook's evaluator agrees with the TypeScript one but for one stated case.
- **The quorum** (`quorum`, `proposals`, `issuer_start`, `issuer_laws`, `proposal_standing`, `action_routes`).
  Proposals and the delegation as one machine over all its instructions, with what every run keeps from
  the issuer's founding on; the console's
  reading of a proposal and the routes' guards against the program's.
- **The reserve gate** (`reserve`), **the token bucket and its bounded store** (`rate_limit`), **amounts
  as text** (`units`).

Orders, sorting and selection are in `common`. `dafny verify dfyconfig.toml` checks the whole project.

Reading notes:

- "Behind the indexer" is one predicate, `JournalStore.Behind`: the stored cursor, or some row of the table,
  is past the slot. A cursor past slot zero puts every horizon behind the indexer
  (`JournalRoutes.SteadySettlesAll`).
- Where something the code reads may change between reads, the model takes a function from the number of
  the read to what it sees: `at: nat -> Database`, `index: nat -> seq<Mention>`. `History` and
  `IndexHistory` say how it may change; `Indexer.RunsAreHistories` shows the first of them of every run.
- Concurrency in the verifier's pool is a choice, `finishing`, of which busy lane is the next to finish;
  no result depends on it but the order among ties in the list of missing events.
- A token bucket counts in units of which `WINDOW_MS` make one token, so its arithmetic is exact.
- An address, a signature or a digest is an opaque value. A wallet is a number, zero the default key.

Where the code and its comments differ, the code is followed:

- `packages/policy/src/layout.ts` promises that only canonical bytes are accepted. `decodeRules` accepts
  more: `PolicyCodec.EncodeDecode` is the exact condition, `PolicyCodec.StrayByteAccepted` an array for
  every policy that shows the difference.
- `apps/api/src/journal.ts` says nothing can be inserted behind the horizon. The horizon comes from two
  queries, the cursor first and then, without one, the newest row; it is final exactly when the cursor was
  past slot zero at the first, or at the second the stored cursor or some row, of any mint, is past the
  horizon (`Indexer.FinalExactly` over runs, `JournalStore.HorizonFinalExactly` over the table). It fails
  with a cursor at slot zero and no row past it, between the first rows and the first save of a cursor
  (`Indexer.NoCursorIsNotFinal`), and with the first cursor saved between the two queries
  (`Indexer.SavedBetweenIsNotFinal`). The live feed can then leave out an event: `Indexer.GapExactly` says
  when a row can still arrive behind the feed's cursor, and `JournalRoutes.Feed` is gapless otherwise.
- `apps/api/src/ratelimit.ts` takes the clock as it comes. The bound on an interval needs one that never
  steps back: `TokenBucket.IntervalBound` proves it for such clocks, and one step back of any size breaks it
  at every rate (`TokenBucket.SteppingBackRefills`). What holds with any clock
  is `TokenBucket.AllowanceBound`.
- `programs/issuer-forge/src/reserve.rs` says a sum that does not fit is larger than any reserve. It is
  not larger than an attested `u64::MAX` (`Reserve.SaturationAdmits`); the token program then refuses the
  overflow, so the run-wide claim still holds (`ReserveMachine.RunKeeps`).
- The hook's period limit saturates in the same way: `ProgramRules.EvaluatorsAgree` states exactly when
  the two evaluators differ.

## Model

| member | source | states |
|---|---|---|
| `Events.KeyIdentifies` | tools/verify-journal/src/file.ts:24-26 | two events have one key text exactly when signature and index agree, whatever characters a signature holds |
| `Events.OrdersAgree` | tools/verify-journal/src/file.ts:28-33 | the verifier's three-way comparison and the database's row comparison are one strict order |
| `Events.NoDifferences` | tools/verify-journal/src/verify.ts:60-67 | comparing two events field by field finds nothing exactly when they are the same event, absent fields and all six kinds included |
| `Events.EditIsNamed` | tools/verify-journal/src/verify.ts:60-67 | an edit of any one field of an event, of whatever kind, is reported as a difference in exactly that field |
| `JournalStore.CursorRoundTrip` | apps/api/src/journal.ts:129-149 | a cursor written to text and parsed is the same cursor if and only if its signature holds no colon |
| `JournalStore.AcceptedCursor` | apps/api/src/journal.ts:134-149 | any accepted text, leading zeros included, names a cursor that survives another round trip; without leading zeros the text itself survives |
| `JournalStore.PageIsNext` | apps/api/src/journal.ts:293-307 | wherever a walk stands, the keyset query returns exactly the next `limit` rows after it |
| `JournalStore.RowsFixed` | apps/api/src/journal.ts:94-110 | rows up to a slot behind the indexer read the same at every later time, from any cursor on |
| `JournalStore.SlotFinalExactly` | apps/api/src/journal.ts:94-110 | the rows of a mint up to a slot stay the same under every growth of the table if and only if the slot is behind the indexer |
| `JournalStore.HorizonFinalExactly` | apps/api/src/journal.ts:245-266 | for a horizon made of two reads, the rows up to it are the same under every growth of the table if and only if the cursor was past slot zero at the first read, or at the second the stored cursor or some row is past the horizon |
| `JournalStore.HorizonIsLastFinal` | apps/api/src/journal.ts:249-254 | with a stored cursor past slot zero a slot is within the horizon if and only if the rows up to it stay what they are in every table with that cursor, however it grows: the horizon is the last slot the cursor makes final |
| `JournalStore.HorizonIsLastRow` | apps/api/src/journal.ts:256-265 | without a cursor the horizon is the last slot of a row of the mint, or zero when it has none |
| `JournalStore.IndexedThrough` | apps/api/src/journal.ts:245-266 | the slot said to be indexed is the stored cursor itself, the horizon without one, and never below the horizon |
| `JournalStore.ReadableExtends` | apps/api/src/journal.ts:103-110 | the rows up to a slot behind the indexer are an unchanged prefix of those up to any later slot at any later time |
| `JournalStore.WindowLosesNothing` | apps/api/src/journal.ts:159-184 | a row inside both bounds, by slot or by time, and within the horizon is in the resolved window, whatever happened to the table between the three reads |
| `JournalStore.WindowIsTight` | apps/api/src/journal.ts:159-184 | the window runs from exactly the lower edge to the upper edge or the horizon, whichever comes first: a slot as asked, the first or last slot of a row on the right side of an instant, zero and the horizon without bounds; and it is the empty one past the horizon when an instant has no row on its side |
| `JournalStore.WithoutBounds` | apps/api/src/journal.ts:159-184 | without bounds the window of a stored cursor holds exactly the rows of the mint below the cursor |
| `JournalRoutes.Export` | apps/api/src/routes/journal.ts:147-193 | for any page size from one and any growth between any two reads, the file is the manifest and then rows of the window in strict order, none twice; when the window's end is behind the indexer, exactly the rows as they were when the frontier was read, as many as declared, cut only if the connection was gone first |
| `JournalRoutes.UnboundedExport` | apps/api/src/routes/journal.ts:147-193 | from a stored cursor past slot zero on, an export without bounds is over a final window whose rows are all the rows of the mint below the cursor |
| `JournalRoutes.Feed` | apps/api/src/routes/journal.ts:240-288 | over any run the messages are rows of the mint past the resume point in strict order, none twice; they are all the rows from where the feed began up to where it stands whenever its cursor was closed at every stop, which it is when every horizon read was behind the indexer; after a page with room to spare nothing up to the horizon is left |
| `JournalRoutes.CaughtUpToCursor` | apps/api/src/routes/journal.ts:267-280 | a feed that has caught up from such a cursor has nothing of the mint below it left to send |
| `JournalRoutes.OriginLeavesBacklog` | apps/api/src/routes/journal.ts:250-265 | a feed without a resume point opens with exactly the last rows asked for, fifty when nothing is asked, or all if they are fewer |
| `JournalRoutes.SteadySettlesAll` | apps/api/src/journal.ts:103-110 | from a stored cursor past slot zero on, every horizon a connection reads is behind the indexer |
| `JournalRoutes.ResumeContinues` | apps/api/src/routes/journal.ts:216-230 | for a message whose slot was behind the indexer, what a client kept up to it and what a later connection sends from its id on is together what one connection would have sent: none missed and none repeated |
| `Indexer.RunKeeps` | apps/worker/src/indexer/cursor.ts:64-109 | in every run, with failures before or after the insert, failed saves and restarts, the rows are the events of a prefix of the chain reaching at least to the stored cursor, which never goes back |
| `Indexer.HandlingIs` | apps/worker/src/indexer/cursor.ts:76-92 | in every run it is the next transaction of the chain that is handled: a success leaves all its events and moves the cursor to it, a failure leaves the cursor and stops the pass |
| `Indexer.HaltedWritesNothing` | apps/worker/src/indexer/cursor.ts:52-62 | after a failure nothing is written until the next pass or a restart |
| `Indexer.RestartResumes` | apps/worker/src/indexer/follow.ts:42-62 | after a restart the next pass goes on right behind the stored cursor, whatever was in memory |
| `Indexer.GuardSkipsOnlyHandled` | apps/worker/src/indexer/cursor.ts:70-75 | in every run the guard against repetition never skips a transaction not handled, and always skips the one of the cursor and those of earlier slots |
| `Indexer.HorizonMirrorsChain` | apps/worker/src/indexer/follow.ts:42-62 | up to any slot behind the indexer the table holds exactly the chain's events |
| `Indexer.RunGrows` | apps/worker/src/indexer/cursor.ts:76-92 | between any two points of a run rows are only added, none below the stored cursor and none below a row already there, and the cursor only advances |
| `Indexer.RunsAreHistories` | apps/api/src/journal.ts:94-110 | everything the readers of the table assume about its growth holds of every run of the indexer |
| `Indexer.FinalExactly` | apps/api/src/journal.ts:245-266 | of any two tables a run leaves one after the other: in every continuation of every such run the rows up to the horizon the two reads make stay what they are, if and only if the cursor was past slot zero at the first read, or at the second the stored cursor or some row is past the horizon |
| `Indexer.UnsettledGains` | apps/api/src/journal.ts:256-265 | any two tables of a run, read one after the other, are also left by a run that goes on to insert a row of the mint at any slot not behind the indexer, right behind any signature |
| `Indexer.NoCursorIsNotFinal` | apps/api/src/journal.ts:256-265 | an instance, reached from the empty start: no cursor is stored yet, the newest row's slot counts as final and then gains a row |
| `Indexer.SavedBetweenIsNotFinal` | apps/api/src/journal.ts:245-266 | an instance of a cursor saved between the two queries: none at the first, past slot zero at the second, and the horizon gains a row |
| `Indexer.GapExactly` | apps/api/src/journal.ts:103-106 | of any table a run can leave, with the feed standing at one of its rows: a row that it has not sent can still arrive behind it if and only if the row's slot is not behind the indexer and the feed did not begin inside the row's own transaction |
| `ChainIndex.Mentions` | tools/verify-journal/src/chain.ts:151-170 | paging backward finds every signature of the window as of the first request, newest first, each once, while the index grows at its newest end, for any page limit from one |
| `Transactions.Flatten` | tools/verify-journal/src/decode.ts:119-139 | the loop over a map of groups gives the instructions in execution order |
| `Transactions.ExecutedInBlocks` | tools/verify-journal/src/decode.ts:119-139 | that order is cut into one block for each outer instruction, in their order: the instruction itself and right behind it the instructions of the last inner group of its index, with the keys their indices stand for |
| `Transactions.Read` | tools/verify-journal/src/decode.ts:564-623 | the reading loop computes the reading, or stops at the first instruction that cannot be read |
| `Transactions.ReadingIsWhatRan` | tools/verify-journal/src/decode.ts:585-622 | the reading of a transaction that succeeded is what its instructions leave, joined in the order they ran: a hooked transfer one event with its own mint, source, destination, the owners its last balances name and the amount behind the tag, any other instruction of the program its events or a mention outside the journal |
| `Transactions.FoundExactly` | tools/verify-journal/src/decode.ts:585-611 | a transaction that succeeded can be read if and only if each of its transfers has three accounts with known owners and each instruction of the program is one the interface knows |
| `Transactions.TransferReadsBack` | tools/verify-journal/src/decode.ts:521-560 | a transfer as the token program takes it, with the accounts of the hook behind the authority, reads back as itself, and when refused as its refusal with the slot of its policy's rule |
| `Transactions.CodeOfExactly` | tools/verify-journal/src/decode.ts:541-545 | an error number stands for a code of the hook by its place in the table, past the table for one yet unknown, 17 and 67 for the token program's, any other for none |
| `Transactions.ReadingIsNumbered` | tools/verify-journal/src/decode.ts:613-622 | the events of any transaction carry its signature and slot and are numbered from zero across all its mints |
| `Transactions.FailedLeavesOneRefusal` | tools/verify-journal/src/decode.ts:575-584 | a failed transaction leaves one event exactly when the instruction that failed ran a hooked transfer and its number is a refusal's: the refusal of the last such transfer, with its accounts, their owners, its amount, code, number and rule; and otherwise nothing |
| `Transactions.TransfersAreHooked` | tools/verify-journal/src/decode.ts:585-590 | the transfers read from a successful transaction are exactly its hooked transfers, in execution order, each from its first account to its third with the owners of the two |
| `Transactions.RefusalEventNamesRule` | tools/verify-journal/src/decode.ts:541-560 | for the encoded policy and any refusal of the evaluator but a version mismatch, the event carries the code and the slot whose bytes spell the rule that refused |
| `Transactions.HookRefusalEventNamesRule` | tools/verify-journal/src/decode.ts:541-560 | for any bytes the program lets into the policy account and any refusal of the hook itself, the event carries the code and the only slot of its kind, whose bytes spell the rule that refused; it has no slot exactly for a version mismatch |
| `JournalFile.ReadJournal` | tools/verify-journal/src/file.ts:35-104 | manifest, entries with their lines, and the problems in order: per line, of the manifest, per entry against all entries before it |
| `JournalFile.NoProblems` | tools/verify-journal/src/file.ts:67-101 | no problem exactly when the file is a manifest and then its count of events, of its mint, in its window, strictly ordered, no key twice |
| `JournalFile.CutIsVisible` | packages/shared/src/journal/index.ts:35-38 | a file cut before any of its lines has a problem on its own, and names the count it holds |
| `VerifyJournal.InPool` | tools/verify-journal/src/verify.ts:69-83 | whatever order the lanes finish in, every signature is read and each exactly once |
| `VerifyJournal.MapEvents` | tools/verify-journal/src/verify.ts:173-177 | the map by key holds exactly the mint's events of the transactions read, whatever the order of completion |
| `VerifyJournal.CompareEntries` | tools/verify-journal/src/verify.ts:185-203 | each line is confirmed, unconfirmed or mismatched against the event the chain shows under its key, a failed reading coming first |
| `VerifyJournal.PilesHold` | tools/verify-journal/src/verify.ts:185-203 | an unconfirmed line is one the chain shows nothing for, with the reason; a mismatched line one it shows differently, with the fields; and every line not shown as it stands is in one of the two |
| `VerifyJournal.Missing` | tools/verify-journal/src/verify.ts:205-207 | exactly the chain's events of the window whose keys the file lacks, each once, earliest first |
| `VerifyJournal.ClaimProblemsMean` | tools/verify-journal/src/verify.ts:107-127 | each problem with the manifest's claims is named exactly when it is there |
| `VerifyJournal.NothingRefuted` | tools/verify-journal/src/verify.ts:194-202 | no line is unconfirmed or mismatched exactly when the chain shows every line's event as it stands |
| `VerifyJournal.VerifyJournal` | tools/verify-journal/src/verify.ts:100-226 | the report, every field of it, for any concurrency and any order of completion; with an index complete for the window it passes if and only if the file is honest |
| `VerifyJournal.PassesExactly` | tools/verify-journal/src/verify.ts:219-224 | with an index complete for the window, a report passes if and only if the file is the strictly ordered sequence of all the chain's events of its mint in its window, its claims hold and every mention is readable |
| `VerifyJournal.PassingFilesAgree` | tools/verify-journal/src/verify.ts:1-8 | two files that pass for one mint and window hold the same lines |
| `VerifyJournal.OnlyTheseLines` | tools/verify-journal/src/verify.ts:3-8 | under an honest file's manifest, with any count declared, no other lines make an honest file: none dropped, edited, invented, repeated or reordered |
| `VerifyJournal.TamperedFails` | tools/verify-journal/src/verify.ts:3-8 | under the manifest of a file that passes, lines and a count pass if and only if they are those lines and their number |
| `VerifyJournal.ShareMeasuresLines` | tools/verify-journal/src/verify.ts:43-47 | confirmed, unconfirmed and mismatched lines add up to all lines; the share lies between zero and one and is zero exactly when all are confirmed |
| `JournalEndToEnd.ExportPasses` | apps/api/src/routes/journal.ts:139-201 | an export of a table that mirrors the chain up to the window's end, that end behind the indexer, has no problem as a file, and passes exactly when the manifest's claims hold and the window can be read |
| `JournalEndToEnd.IndexExportAndVerify` | tools/verify-journal/src/verify.ts:100-226 | the same from the indexer's run onward, which may go on while the export reads, whether or not the connection lasts: the file passes exactly when the export came to its end, the claims hold and the window can be read; it comes to its end if the connection lasts for its pages |
| `JournalEndToEnd.CutExportFails` | apps/api/src/routes/journal.ts:195-200 | an export that ends short of its count never passes |
| `PolicyModel.ValidIs` | packages/policy/src/model.ts:105-243 | what a policy may say, in numbers: its sources, tiers, ages, codes, limits and periods |
| `PolicyModel.NormaliseValid` | packages/policy/src/model.ts:182-265 | normalising a valid policy gives a valid one that normalising leaves alone |
| `PolicyModel.NormaliseCanonical` | packages/policy/src/model.ts:182-243 | two valid policies have one normal form exactly when they say the same: the order of sources and jurisdictions is all that is forgotten |
| `PolicyLayout.WriteSlot` | packages/policy/src/layout.ts:79-87 | exactly one slot of the buffer changes, to this kind, a zero byte and these parameters |
| `PolicyLayout.BuildJurisdictionParams` | packages/policy/src/layout.ts:99-106 | the codes as ASCII pairs from the start, zeros behind |
| `PolicyLayout.EncodeRules` | packages/policy/src/layout.ts:123-153 | the loop over the buffer writes the encoding of exactly the policies the model admits and refuses the rest |
| `PolicyDecoding.DecodeRules` | packages/policy/src/layout.ts:196-273 | the loop accepts exactly the arrays of an accepted shape that spell a valid policy, and reads that policy |
| `PolicyCodec.DecodeEncode` | packages/policy/src/layout.ts:123-273 | decoding the encoding of any valid policy gives its normal form |
| `PolicyCodec.EncodeNamesContent` | packages/policy/src/layout.ts:3-20 | two valid policies encode to the same bytes exactly when they say the same |
| `PolicyCodec.EncodeDecode` | packages/policy/src/layout.ts:161-251 | accepted bytes encode back to themselves if and only if every used slot is zero past its own parameters and its jurisdictions ascend |
| `PolicyCodec.StrayByteAccepted` | packages/policy/src/layout.ts:10-20 | for every normal policy an array that is not its encoding and decodes to it |
| `PolicyCodec.UsedRuleSlotsAreUsed` | packages/policy/src/model.ts:276-283 | the count of used slots is the number of leading slots the encoding fills, all others being empty |
| `TransferRules.ViewParty` | packages/policy/src/evaluate.ts:210-281 | a fact is in the view exactly when its source's record is unexpired and, for the provider, not over age, each source at most once; it is accepted exactly when the rule names its source; and unavailable means either source did not answer, named by the rule or not |
| `TransferRules.ContextIs` | packages/policy/src/evaluate.ts:55-175 | the inputs the evaluator takes, in numbers: amounts of a u64, versions of a u32, times up to 2^53 - 1, tiers of a byte and two-letter codes |
| `TransferRules.JudgeIsFirst` | packages/policy/src/evaluate.ts:404-424 | the verdict is the first failing check in the order of the codes, and an allow exactly when none fails |
| `TransferRules.EvaluateTransfer` | packages/policy/src/evaluate.ts:404-424 | the early-return loop gives that verdict on valid input and an error exactly on invalid input |
| `TransferLaws.RelaxingNeverRefuses` | packages/policy/src/evaluate.ts:298-326 | with sources and attestation age fixed, a relaxed policy and a smaller amount never turn an allow into a refusal nor move the refusal to an earlier code |
| `TransferLaws.SecondSourceOnlyNarrows` | packages/policy/src/evaluate.ts:257-281 | with a current record of an accepted source in hand, the other source in any state never turns a refusal into an allow |
| `TransferLaws.StaleIsAbsent` | packages/policy/src/evaluate.ts:224-249 | an expired or over-age record gives the verdict and code of an absent one |
| `TransferLaws.RegisterCountsUntilExpiry` | packages/policy/src/evaluate.ts:216-225 | for either party: before the second it expires a register record gives the verdict of one that never does, from that second on the verdict of none |
| `TransferLaws.ProviderCountsWhileFresh` | packages/policy/src/evaluate.ts:227-249 | for either party: a provider record gives the verdict of one issued this second that never expires while it is neither expired nor older than the policy allows, and otherwise the verdict of none |
| `TransferLaws.AllowedExactly` | packages/policy/src/evaluate.ts:298-424 | for every policy and transfer, allowed if and only if, in terms of the records and times themselves: versions agree, both sources answered, an accepted unexpired record knows each party and none denies it, every accepted one of the recipient has the tier and a listed jurisdiction, and the amount is within the limits, with what was spent while the window runs |
| `TransferLaws.TierHasFacts` | packages/policy/src/evaluate.ts:288-306 | once the status checks passed both parties have an accepted fact, so the empty case of the merged tier is never reached |
| `TransferLaws.TokenLayerFirst` | packages/policy/src/evaluate.ts:458-500 | a holder is answered by the token program first: a paused token, then a frozen account on either side, whatever the policy; those two codes never come from the policy |
| `PolicyScenarios.ScenariosAnswer` | packages/policy/src/scenarios.ts:107-217 | for every valid policy and time each scenario gets its verdict: verified allowed at the binding limit, unverified, denied and paused their codes, over-limit the limit that binds first or, without limits, allowed and not applicable |
| `PolicyScenarios.BuiltExactly` | packages/policy/src/scenarios.ts:176-217 | a scenario is built exactly for a valid policy and a time within 2^53 - 1 |
| `PolicyScenarios.SimulatedAnswers` | packages/policy/src/scenarios.ts:226-235 | the list of results holds, name by name, the scenario and the verdict it is there to show |
| `PolicyScenarios.LeastLimit` | packages/policy/src/scenarios.ts:136-142 | the binding limit is the smaller of those set, the transfer's on a tie, and there is none exactly when none is set |
| `RefusedRules.FindSlot` | tools/verify-journal/src/decode.ts:495-501 | the first slot of a kind, or none exactly when there is none |
| `RefusedRules.RefusalNamesItsRule` | tools/verify-journal/src/decode.ts:480-501 | every refusal but a version mismatch leads to the one slot of its kind in the encoded policy, and that slot reads as the rule that refused |
| `RefusedRules.HookRefusalNamesItsRule` | tools/verify-journal/src/decode.ts:480-501 | every refusal of the hook under accepted bytes names the one slot of its rule, whose bytes spell that rule; a version mismatch has none |
| `ProgramLayout.ValidateJurisdictions` | programs/issuer-forge/src/rules/layout.rs:184-215 | the byte loop passes exactly non-empty, strictly ascending upper-case codes with zeros behind |
| `ProgramLayout.Validate` | programs/issuer-forge/src/rules/layout.rs:81-134 | the walk over the slots passes exactly the arrays the program accepts |
| `ProgramLayout.ProgramAcceptsExactlyEncodings` | programs/issuer-forge/src/rules/layout.rs:81-238 | the program accepts an array if and only if it is the encoding of a valid policy: the canonicality the TypeScript decoder leaves out |
| `ProgramRules.ReadPolicy` | programs/issuer-forge/src/rules/evaluate.rs:136-176 | the walk over all slots, gaps included, reads the first slot of each kind and whether an unknown kind occurs |
| `ProgramRules.EvaluateSlots` | programs/issuer-forge/src/rules/evaluate.rs:407-420 | the hook's verdict is the first failing of its checks over what the slots say |
| `ProgramRules.EvaluatorsAgree` | programs/issuer-forge/src/rules/evaluate.rs:211-389 | on the slots of any accepted policy the hook and the TypeScript evaluator agree, code included, except exactly when the period limit is the u64 ceiling, the sum overflows it and nothing else refuses; then the hook allows |
| `HookLaws.RegisterCountsForHook` | programs/issuer-forge/src/rules/evaluate.rs:246-254 | the hook too counts a register record as lasting before the second it expires and as none from then on |
| `HookLaws.ProviderCountsForHook` | programs/issuer-forge/src/rules/evaluate.rs:256-270 | and a provider record while it is neither expired nor older than the slots say |
| `HookLaws.HookAllowsExactly` | programs/issuer-forge/src/rules/evaluate.rs:407-420 | under any bytes the program lets into the account the hook allows exactly what meets the policy they spell, and in the one case of the saturating sum what meets it without the period limit |
| `HookLaws.UnknownKindNeverPasses` | programs/issuer-forge/src/rules/evaluate.rs:136-176 | over any slots with a kind the program does not know no transfer is allowed, and that is the reason when there is no other |
| `ProgramVelocity.CounterAccount.Execute` | programs/issuer-forge/src/hook/execute.rs:154-233 | with a counter or without, the transfer is judged by what is there; a refused one leaves the counter alone, an allowed one adds its amount to the window it falls in or starts one, and a missing counter stays missing |
| `ProgramVelocity.NoCounterNoTransfer` | programs/issuer-forge/src/rules/evaluate.rs:324-389 | under a period limit nothing passes for a sender without a counter |
| `ProgramVelocity.WindowNeverOverspent` | programs/issuer-forge/src/hook/execute.rs:219-233 | for every period limit below the u64 ceiling, in every run of transfers what was allowed inside one counter window never exceeds it; windows open with a transfer, end when the limit says and do not overlap, and the counter is exactly what its window let through |
| `ProgramVelocity.CeilingOverspends` | programs/issuer-forge/src/rules/evaluate.rs:375-389 | at the ceiling itself a transfer of that amount goes through twice in one window |
| `Quorum.CheckMeaning` | programs/issuer-forge/src/quorum.rs:45-62 | signatures suffice exactly when they are distinct, all of current authorising members, and reach the threshold; the other answers by their exact cause |
| `Proposals.ActionProposal.constructor` | programs/issuer-forge/src/instructions/proposal.rs:156-167 | what raising writes: the proposer's approval alone, the action, the term's end, not executed; the guards before it are steps of `IssuerMachine` |
| `Proposals.ActionProposal.AddApproval` | programs/issuer-forge/src/state/proposal.rs:444-459 | the rows in use gain the wallet at their end, or nothing changes: a repeat is refused before a ninth |
| `Proposals.ActionProposal.MarkExecuted` | programs/issuer-forge/src/instructions/set_delegation.rs:109 | the last write of an execution: only its time changes; the guards before it are steps of `IssuerMachine` |
| `IssuerMachine.RunKeeps` | programs/issuer-forge/src/instructions/proposal.rs:113-261 | in every run approvals stay distinct and at most eight, no raise is executed twice, and each execution fell within its term with its approvals all authorising then and no fewer than the quorum, a delegation change from exactly its recorded start |
| `IssuerMachine.ApprovalsAppendOnly` | programs/issuer-forge/src/state/proposal.rs:444-459 | between any two points of a run a proposal's approvals only grow at the end, and once executed nothing of it changes |
| `IssuerLaws.AcceptedExactly` | programs/issuer-forge/src/instructions/proposal.rs:117-261 | when each instruction is accepted: raising, approving, executing, closing and changing the delegation, in terms of membership, term, signatures and the delegation of the moment |
| `IssuerLaws.RefusalIsTrue` | programs/issuer-forge/src/instructions/proposal.rs:117-261 | whatever is refused is refused for a reason that is so, error by error |
| `IssuerLaws.AcceptedIsDone` | programs/issuer-forge/src/instructions/proposal.rs:141-261 | what each accepted instruction leaves behind: the proposal as raised, one more signature, the mark of its execution, no account after a close; and every other proposal as it was |
| `IssuerLaws.NobodySignsForAnother` | programs/issuer-forge/src/instructions/proposal.rs:117-208 | in every run each proposal is what its first signer raised in it, with the term and action asked for, and every further signature on it was given by that wallet itself, authorising at that moment |
| `IssuerLaws.ExecutionsWereAsked` | programs/issuer-forge/src/instructions/set_delegation.rs:64-111 | every execution of a run is some step's, with the proposal, membership and delegation as they stood |
| `IssuerLaws.DelegationIsLastNamed` | programs/issuer-forge/src/instructions/set_delegation.rs:104-106 | at every moment of a run key and mask are exactly those the last accepted change named, proposal or immediate, and without one what they were |
| `IssuerStart.FoundedExactly` | programs/issuer-forge/src/instructions/initialize_issuer.rs:48-121 | an issuer comes to be exactly with two to eight distinct wallets of sound roles, an attestor with no other role, a threshold from two up to the number who may authorise, a delegation of delegable powers to a key outside the membership, and an admin who founds it |
| `IssuerStart.SoundRolesAre` | programs/issuer-forge/src/state/issuer.rs:7-24 | the eight role masks a member may have, and which bit each role is |
| `IssuerStart.FoundingRefusalIsTrue` | programs/issuer-forge/src/instructions/initialize_issuer.rs:75-121 | a founding that is refused is refused for a fault that is there |
| `IssuerStart.FoundedRunsKeep` | programs/issuer-forge/src/state/delegation.rs:17-24 | in every run from the founding on, while the membership stays: nothing is ever executed on fewer than two distinct signatures or with the operational key among them, that key is never a member and holds only delegable powers, the threshold can be reached, and the invariant of `IssuerMachine.RunKeeps` holds |
| `IssuerLaws.BlockedNeverReady` | apps/api/src/actions.ts:444-465 | while the membership only shrinks, a blocked proposal is never executed, its account closed or not, and wherever it still exists it is blocked or expired |
| `IssuerLaws.DelegationOnlyNarrows` | programs/issuer-forge/src/state/delegation.rs:67-109 | between two quorum changes the key is constant and the mask only loses bits |
| `IssuerLaws.QuorumChangeAuthorised` | programs/issuer-forge/src/instructions/set_delegation.rs:55-112 | every other change of the delegation was signed by distinct authorising members of its moment, no fewer than the quorum of its moment; by an executed proposal, its approvers |
| `IssuerLaws.RegainedByQuorum` | programs/issuer-forge/src/state/delegation.rs:85-109 | a delegation lost is back only after a change that gave it back, signed by distinct authorising members of its moment, no fewer than the quorum of its moment |
| `IssuerLaws.OvertakenGrantNeedsQuorum` | apps/api/src/routes/actions.ts:341-369 | a grant overtaken by a revocation executes only after a later change restored what it was raised against, signed by distinct authorising members of its moment, no fewer than the quorum |
| `ProposalStanding.StandingIsCheck` | apps/api/src/actions.ts:444-469 | a live proposal is labelled ready, blocked or open exactly as the program's check answers |
| `ProposalStanding.TallyAddsUp` | apps/api/src/actions.ts:444-469 | the signatures counted and those lapsed are all of the proposal's, the lapsed exactly those of wallets that may no longer authorise, against the threshold of the moment |
| `ProposalStanding.OfferedApprovalIsTaken` | apps/web/src/compliance/model.ts:281-311 | a signature the screen asks for passes every guard of the route; the guard on eight approvals is never the reason |
| `ProposalStanding.OpenProposalHasASigner` | apps/web/src/compliance/model.ts:307-311 | while the threshold can be met, every open proposal has a member who is offered a signature |
| `ProposalStanding.NextStepExactly` | apps/web/src/compliance/model.ts:281-311 | the step offered, exactly: closing what is finished, executing what is ready, with the first authorising member of the roster among the session's wallets; a signature on what is open by one that has not signed; waiting only when none of these is possible |
| `ActionRoutes.ApproveRouteIsProgram` | apps/api/src/routes/actions.ts:281-314 | the approve route takes what the program takes, except exactly a blocked proposal |
| `ActionRoutes.ExecuteRouteIsProgram` | apps/api/src/routes/actions.ts:325-369 | the program executes exactly what the execute route lets through and whose action may run at all |
| `ActionRoutes.CloseRouteIsProgram` | apps/api/src/routes/actions.ts:503-517 | the close route and the program close the same proposals |
| `ActionRoutes.RevocationTakesExactly` | apps/api/src/routes/delegation.ts:188-201 | the new mask lacks exactly the powers named, is a proper part of the old one, and never touches another power |
| `ActionRoutes.RevocationIsAssembled` | apps/api/src/routes/delegation.ts:188-201 | a revocation is assembled if and only if the key holds every power named; otherwise exactly those it does not hold are named back |
| `ActionRoutes.RevocationIsTaken` | apps/api/src/routes/delegation.ts:203-211 | one admin's signature suffices for every revocation assembled, exactly when the delegation is valid at all; afterwards the key is the same and the delegation has lost exactly the powers named |
| `Reserve.GateMatchesStanding` | apps/api/src/reserve.ts:69-95 | for the latest attestation, whatever its date, the program refuses and admits exactly as the page's expiry, replacement and difference foretell, refusal by refusal, with two exceptions: one dated after now, which the page shows as current and the program refuses for its date, and an insufficiency against an attested u64 ceiling |
| `Reserve.PageShows` | apps/api/src/reserve.ts:69-95 | the page shows the latest attestation itself, the last second it is current and an age by which it is expired exactly then; without one, no reserve and expired |
| `Reserve.SaturationAdmits` | programs/issuer-forge/src/reserve.rs:98-103 | the exception is reachable |
| `Reserve.OnlyTheLatestOpens` | programs/issuer-forge/src/reserve.rs:49-105 | the gate opens only for the token's latest attestation, by the attestor in force, within its period and, unless the attested amount is the u64 ceiling, within its amount |
| `ReserveMachine.CreatedExactly` | programs/issuer-forge/src/instructions/create_token.rs:278-462 | as far as the reserve goes a token is created exactly with an attestor of the membership, a valid period and a first attestation that is current and covers the first issuance; the run-wide invariant holds of it |
| `ReserveMachine.CreatedRunsAreBacked` | programs/issuer-forge/src/reserve.rs:1-12 | over the whole life of a token, from its creation through any attestations, changes of terms, issuances and burns, its circulation stays within some attested amount, and the invariant of `ReserveMachine.RunKeeps` holds |
| `ReserveMachine.AttestationsWereSigned` | programs/issuer-forge/src/instructions/attest_reserve.rs:74-113 | every attestation of a run is what a step of it signed: that amount and date, under the period in force, by the attestor in force at that moment |
| `ReserveMachine.IssuancesWereAsked` | programs/issuer-forge/src/instructions/mint.rs:131-202 | every issuance of a run is what a step of it issued, against the attestation and terms of that moment |
| `ReserveMachine.AcceptedIsRecorded` | programs/issuer-forge/src/instructions/attest_reserve.rs:96-113 | and whatever was accepted stays on record |
| `ReserveMachine.CreatedRunsWereAttested` | programs/issuer-forge/src/reserve.rs:1-12 | over the whole life of a token its circulation, and that right after each issuance, stays within an amount given at its creation or signed later by the attestor then in force |
| `ReserveMachine.SupplyIsWhatMoved` | programs/issuer-forge/src/instructions/mint.rs:155-197 | in every run the circulation is what it was, plus what was issued, less what was burned |
| `ReserveMachine.AcceptedExactly` | programs/issuer-forge/src/reserve.rs:27-105 | when attestations, changes of terms, issuances and burns are accepted; an issuance exactly against the last attestation, by the attestor in force, current, for no more than it leaves |
| `ReserveMachine.RefusalIsTrue` | programs/issuer-forge/src/reserve.rs:27-105 | whatever is refused is refused for a reason that is so, error by error |
| `ReserveMachine.TermsAreNamed` | programs/issuer-forge/src/instructions/set_attestor.rs:65-125 | only an accepted change of terms changes them, and to those it names |
| `ReserveMachine.ClockRuns` | programs/issuer-forge/src/instructions/attest_reserve.rs:88-94 | no instruction moves the clock |
| `ReserveMachine.RunKeeps` | programs/issuer-forge/src/instructions/mint.rs:155-197 | in every run, right after each issuance the supply was at most what the latest attestation attested, its attestor in force and its period running |
| `ReserveMachine.AttestationsAppendOnly` | programs/issuer-forge/src/instructions/attest_reserve.rs:74-113 | nothing attested is edited or removed in any run |
| `ReserveMachine.ReplacedAttestorStopsIssuance` | programs/issuer-forge/src/reserve.rs:44-48 | after the attestor is replaced the supply never grows until a new attestation or new terms |
| `TokenBucket.TakeHolds` | apps/api/src/ratelimit.ts:26-41 | a bucket stays between empty and its capacity, whatever the clock does |
| `TokenBucket.RetryAfterIsLeast` | apps/api/src/ratelimit.ts:36-40 | a refused caller is let through after a wait if and only if it is at least the one stated |
| `TokenBucket.FullAfterAMinute` | apps/api/src/ratelimit.ts:26-35 | at every rate an empty bucket is full again after 60 000 milliseconds and not before |
| `TokenBucket.AllowanceBound` | apps/api/src/ratelimit.ts:26-41 | with any clock at all, the calls allowed are paid for by the bucket's content and by how far the clock moved forward |
| `TokenBucket.IntervalBound` | apps/api/src/ratelimit.ts:7-10 | with a non-decreasing clock, any interval of any run allows at most the capacity and what its length refills |
| `TokenBucket.SteppingBackRefills` | apps/api/src/ratelimit.ts:27-34 | at every rate one step back of any size breaks that bound: after the whole allowance and one call at an earlier time, a further call passes before the interval has refilled one |
| `TokenBucket.BurstIsCapacity` | apps/api/src/ratelimit.ts:26-35 | of any number of calls at one moment by a new caller exactly the stated rate pass, or all if fewer |
| `BucketStore.Store.Sweep` | apps/api/src/ratelimit.ts:59-66 | every idle bucket goes; only if too many remain, the least recently used go too, exactly as many as needed |
| `BucketStore.Store.Take` | apps/api/src/ratelimit.ts:69-74 | the verdict on the stored bucket, that bucket replaced, a sweep only when the store grew too large, and never more than the limit afterwards |
| `BucketStore.ForgettingIdleChangesNothing` | apps/api/src/ratelimit.ts:52-58 | in any run whose sweeps drop only idle buckets every verdict is that of a store that forgets nothing |
| `BucketStore.StoreForgetsNothingInBounds` | apps/api/src/ratelimit.ts:49-79 | in every run of the store in which no more addresses call within one window than it may hold, every verdict is that of a store that forgets nothing |
| `BucketStore.EachAddressItsOwn` | apps/api/src/ratelimit.ts:49-79 | in those runs every verdict is that of a bucket which saw the earlier calls of the same address and no others |
| `Units.ParseFormat` | apps/web/src/compliance/model.ts:33-59 | an amount formatted and parsed is itself, for every number of decimals, if and only if it is not zero and fits a u64 |
| `Units.FormatIs` | apps/web/src/compliance/model.ts:33-40 | a formatted amount is its whole units without leading zeros, a comma exactly before every third digit from the point, and as many digits behind the point as the token has decimals |
| `Units.AcceptedExactly` | apps/web/src/compliance/model.ts:45-59 | a text is accepted if and only if, commas and spaces aside, it writes digits with at most one point, no more decimals than the token has, not zero, within a u64 |
| `Units.SpacesAre` | apps/web/src/compliance/model.ts:46 | the twenty-five signs dropped as space |
| `Units.RefusalIsTrue` | apps/web/src/compliance/model.ts:45-59 | a text that is refused is refused for what is wrong with it, error by error |
| `Units.AcceptedReformats` | apps/web/src/compliance/model.ts:45-59 | whatever text is accepted, its amount formatted again parses to the same amount |
| `Units.AcceptedIsWorth` | apps/web/src/compliance/model.ts:45-59 | an accepted text is worth its whole part in whole units plus its fraction at its place, commas and spaces anywhere ignored |

## Left out

- The network, Postgres, HTTP, the SSE transport, logins, wallets and logs: their answers are parameters.
- Addresses, signatures and digests: base58, SHA-256, ed25519 and the derivation of accounts are opaque; nothing is claimed about collisions.
- Anchor and Borsh coding and the per-instruction event readers of `decode.ts`: what an instruction of the program reads as is an oracle; `Transactions.TransfersAreHooked` assumes that none reads as a transfer, as in the code.
- `Transactions.Read`: what the chain answers about an account is one answer for the whole verification. The owner of a token account can change while the verifier reads; a transaction whose own balances do not name the owner may then read differently, and that no result depends on the order of completion rests on one answer.
- JSON and schema parsing: a line arrives typed, as not JSON, of no known shape, the manifest or an event; whether an assembled event satisfies its schema is an oracle.
- `Date.parse` in `parseBound`: bounds arrive as slots or unix seconds.
- JavaScript numbers past 2^53 and the database's `smallint` cast of a cursor's event index: integers are unbounded here.
- Signatures are ordered as strings by character; the database's collation is taken to order them the same way.
- One indexer writes to the table, and the index of signatures it lists is finalized and complete; the mirror tables other than `events` are not modelled.
- `JournalEndToEnd.IndexExportAndVerify`: that the indexer's own decoder reads what the verifier's decoder reads is assumed, as `SameReading`.
- `JournalRoutes.Feed`: the loop runs until the connection closes, here after a given number of passes; heartbeats, sleeping and the error message are not modelled. That nothing is left out between messages is promised when the cursor was closed at every stop; where it was not, a row may arrive behind the feed and is never sent, `Indexer.GapExactly` saying exactly when.
- `Indexer.GapExactly`: signatures are any strings here, so there is room for another one below any but the least, the empty string; a signature with the least character in it, which no encoding produces, is left out.
- `JournalRoutes.Export`: when the window's end is not behind the indexer the file is in order and without repeats, but rows may arrive behind the walk, so its count is not promised. The connection lasts for a given number of pages. A page that fails to read, or a write that is lost, ends the file early; `JournalEndToEnd.CutExportFails` covers the file that results.
- `VerifyJournal.Missing`: the order among events of one slot and index, which the pool's order decides, is left open.
- `BucketStore.Store.Sweep`: among buckets last used at the same instant it is left open which go.
- `TokenBucket.Take`: the rate is whole and positive and the clock counts whole milliseconds, as its callers have it.
- Reading an address out of a header (`addressFromHeaders`) is not modelled.
- `IssuerMachine.Apply`: a change of membership, which the program does not have yet, is any change at all; what a token action checks of its own is a parameter, and the proposal's body is a digest.
- `ReserveMachine.Apply`: membership and quorum checks of a change of terms are parameters, the attestor's role at creation too; what else `create_token` writes is not modelled.
- The fee at issuance, which splits the same total; seats; `bodyMatches`; `toRequest`; `issuance.ts`; `patientFetch`: not modelled.
- `ProposalStanding.ApproveGuard`: the choice of a signer among a session's wallets comes before it and is not modelled; a wallet has its role on chain if any row of it does.
