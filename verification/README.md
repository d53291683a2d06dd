# Equinox, verified

A Dafny model of the parts of Equinox, a perpetuals exchange for stocks on Solana
and the MagicBlock rollup, where a fast, bounded or stateful program must agree
with something simple, and proofs that it does. Each module follows one part of
the repository:

| module | models |
|---|---|
| `Numerals`, `Base58` | the Base58 printer of the web client and the reader of the artifact check |
| `Base64`, `EventCodec` | the 100-byte event record, its writer, its reader and batches of log lines |
| `Indexer` | the worker's ordered stream with duplicates, gaps and a window of 256 |
| `SequenceRecovery` | the client's cursors for two streams on one socket |
| `SessionStore`, `RateLimits` | the session table and the login limiters, in SQL and in memory |
| `RecentFills` | the polled feed of the newest 100 fills |
| `OracleFreshness` | interleaved price-freshness checks sharing one cached read |
| `ChainTransport` | confirmation polling and bounded retry |
| `Funding`, `Lifecycle` | the capped funding delta, and the deposit-to-withdrawal phases |
| `PriceLevels`, `BookView` | price levels and resting orders, on both read paths |
| `BookTrees`, `BookDecoder`, `PageSharing` | tree membership of book nodes, the decode that caches pages by identity and marks their nodes in place, and what sharing a page does to it |
| `LiveFeed`, `LiveBook` | the live book: coalesced pushes, skipped payloads, snapshots, publishing |
| `OrderKeys`, `Patricia` | price-time keys of the on-chain order book, and its PATRICIA trees as sorted lists |
| `ArenaLayout`, `ArenaInsertion`, `ArenaRemoval`, `ArenaScan`, `ArenaQuantity`, `CancelSums`, `BookArena` | two such trees and a free list in one array of 1024 nodes, changed in place |
| `BookValidation` | the integrity check of such an array |
| `Matching`, `MakersMet`, `HeadClearing`, `MatchEngine` | price-time matching over such an array, in place |
| `MatchPlan`, `Settlement`, `Placement`, `MatchWitnesses` | the same as a plan made without changing the array and applied afterwards, orders placed and cancelled in a market of two such arrays, and runs in which an expected property fails |

Objects the source updates in place are classes (`Arena`, `Market`, `DecodeCache`, `LiveBook`,
`SlidingLimiter`, the stores, the event hook); their methods are proved against functions on values, and the laws are
proved of those functions over every run. Clocks, network answers and chain state are
parameters; where a law needs them to behave (a clock that does not go back, a chain that lets nothing
land above its last valid height) the lemma says so. To check the project, give Dafny 4.11
`dafny verify dfyconfig.toml`.

Properties that turned out false of the code are stated as such, with an input and the exact
condition or difference:

- An event id with a signature does not tell markets of one transaction apart (`EventCodec.MarketsShareId`; exactly when in `SignedIdsIdentify`).
- The hook ingests a message newest first, so a message whose numbers rise, as the worker's snapshot does, shows only its last new number of a domain and counts the others as duplicates (`SequenceRecovery.NewestFirstLosesOne`; exactly when in `MessageLosesNothing`, `RisingMessageKeepsFreshIff`, `BatchAgreesWithIndexer`).
- A slot regression hides skipped numbers from the missed count (`SequenceRecovery.RegressionHidesMissed`; exactly when in `ReportIsComplete`).
- A transaction landing between the two reads of one poll is reported expired (`ChainTransport.ExpiryRace`; exactly when in `ExpiryVerdict`).
- A failed oracle refresh lets a price through at 8 s plus the refresh's duration, with no fixed bound (`OracleFreshness.FallbackAgeIsReached`, `ReturnedCallsKeepPromise`).
- A leaf with expiry zero, which on chain never expires (programs/equinox/src/book.rs:1639), shows in the direct book's levels but in no order list (`PriceLevels.NeverExpiringIsUnlisted`); a side byte above 1 and a price of zero or less work the other way round (the exact difference is `LevelIsOrderSum`).
- A payload that fails to decode once is remembered and skipped ever after (`LiveFeed.BadPayloadSticks`), and the skip ignores the encoding (`OtherEncodingIsMissed`; exactly when it matters in `MixedPublishIff`).
- A page array given twice can change the decoded book (`BookDecoder.SharedPageDiffers`; exactly when in `PageSharing.BundleIsAfreshIff`); the live book never gives one twice.
- Two inserts of one session id are refused by SQL and accepted in memory (`SessionStore.SecondInsertSplits`; exactly when in `StatementAgrees`).
- Placing an order can leave a crossed market, which programs/equinox/src/mark.rs:23 says valid matching never does: at most four makers are filled and the rest is filed all the same (`MatchWitnesses.LeaveCrossed`; exactly when in `Placement.Market.Place` and `RestCrossesWhen`).
- Matching in place and settlement by a plan bound their turns differently and part when many of the taker's own orders are in the way (`MatchWitnesses.TurnsRunOut`; exactly when in `Settlement.CompareEngines`).
- Matching in place can trade at a worse price than the best: a dead order that it may no longer remove hides its whole tree (`MatchWitnesses.LosePriority`; exactly when in `MatchEngine.EngineKeepsPriorityIff`).
- An error of matching in place can come after orders were changed, when the rest is filed (`MatchWitnesses.LateError`; exactly when in `MatchEngine.MatchLimit`). Placing by a plan has no such errors (`Placement.PlaceOn`).
- A failed insertion into a full book does not always leave the array as a check of it wants: with slot 1023 as the only free one, that slot is un-bumped with its old tag (`BookArena.LeaveStaleTag`; exactly when in `Arena.Insert`), which `BookValidation.Validate` refuses. The orders themselves are all kept.

## Model

| member | source | states |
|---|---|---|
| `Base58.Base58Encode` | lib/positions.ts:71-84 | The printer loop prints a `1` for each leading zero byte, then the value in base 58. |
| `Base58.B58Decode` | scripts/verify-sbf-artifact.py:32-37 | The reader accumulates the number, raises on a foreign character, and returns the leading zero bytes and the shortest big-endian form. |
| `Base58.ToBytes` | scripts/verify-sbf-artifact.py:36 | The width `(bit_length + 7) // 8` is exactly that of the shortest byte string. |
| `Base58.SymbolsSpellAlphabet` | lib/positions.ts:72 | The symbol table used in the proofs is the alphabet string of the source. |
| `Base58.DecodeEncode` | lib/positions.ts:71-84 | Reading what was printed gives every byte string back, leading zeros included. |
| `Base58.EncodeDecode` | scripts/verify-sbf-artifact.py:32-37 | Printing what was read gives the text back, for every text the reader accepts. |
| `Base58.DecodeAccepts` | scripts/verify-sbf-artifact.py:34-35 | The reader accepts a text if and only if all its characters are in the alphabet. |
| `Base58.AddressLength` | workers/src/launches.ts:8 | Every 32-byte key prints to 32 to 44 alphabet characters, so the address pattern accepts it. |
| `Base64.AtobOfBtoa` | workers/src/event-decoder.ts:81-97 | `atob` undoes `btoa` on every byte string, for the forgiving reader that drops spaces and takes missing padding. |
| `Base64.SextetsAreBits` | workers/src/event-decoder.ts:81-97 | The text is the standard one: three bytes and their four symbols are one number of 24 bits, and a last byte or two are filled up with zero bits. |
| `Base64.SymbolsSpellAlphabet` | workers/src/event-decoder.ts:81-97 | The symbols are the standard alphabet in its order. |
| `Base64.SpacesDoNotCount` | workers/src/event-decoder.ts:81-97 | The five ASCII spaces are read over anywhere in the text. |
| `EventCodec.EventLogLine` | workers/src/test-event-fixtures.ts:29-45 | For every market text and payload, writing the fields into the zeroed 100-byte buffer one after another gives the record, printed as a log line; it throws exactly when the payload is longer than 48 bytes. |
| `EventCodec.RecordBytes` | workers/src/test-event-fixtures.ts:36-43 | Where each of the 100 bytes comes from: numbers byte by byte from the least significant, the version 1, the reserved zero, the market pair by pair, the payload and zeros behind it. |
| `EventCodec.MarketRoundTripIff` | workers/src/test-event-fixtures.ts:41 | Whatever text is written, the market read back is its lower case if and only if the text is 64 hexadecimal digits. |
| `EventCodec.LineDecodes` | workers/src/event-decoder.ts:103-120 | A written line with any market text and any 64-bit sequence is refused if and only if the sequence exceeds the largest safe integer, and otherwise read back field by field. |
| `EventCodec.LineRoundTrip` | workers/src/event-decoder.ts:103-120 | Decoding a written line gives back discriminator, sequence, market, timestamp and payload, over the whole promised range. |
| `EventCodec.DecodeCustodyLogMessages` | workers/src/event-decoder.ts:135-167 | The loop over a batch collects the events of its lines in order. |
| `EventCodec.EventsDistribute` | workers/src/event-decoder.ts:143-166 | A batch cut in two decodes to the two parts in order. |
| `EventCodec.BatchRoundTrip` | workers/src/event-decoder.ts:122-167 | From any mixture of written records and foreign or wrong-length lines exactly the records come out, in order, each with all its fields. |
| `EventCodec.UnsignedIdsIdentify` | workers/src/event-decoder.ts:146 | Without a signature two ids are equal if and only if domain, market and sequence are. |
| `EventCodec.SignedIdsIdentify` | workers/src/event-decoder.ts:146 | With signatures, which hold no colon, two ids are equal if and only if signature and sequence are: the id does not tell markets of one transaction apart. |
| `EventCodec.MarketsShareId` | workers/src/event-decoder.ts:146 | Two different markets logged by one transaction at one sequence get one id. |
| `EventCodec.SignedIsNotUnsigned` | workers/src/event-decoder.ts:146 | No signed id is an unsigned one. |
| `Indexer.ReconcileBatch` | workers/src/indexer.ts:24-34 | The batch loop is the fold of the one-event step and stops at the first gap. |
| `Indexer.ReconcileConcat` | workers/src/indexer.ts:24-34 | Reconciling a concatenation is reconciling its parts one after the other; a gap in the first ends both. |
| `Indexer.IdentityKept` | workers/src/indexer.ts:5-34 | Symbol, market and domain never change, with or without a gap. |
| `Indexer.GapIsPrefixResult` | workers/src/indexer.ts:29 | A gap returns exactly the result of the events before it, and names the first event that does not fit. |
| `Indexer.AppliedExactlyWithoutHoles` | workers/src/indexer.ts:5-11 | A batch is applied to its end if and only if no event jumps more than one past the highest number so far, lacks a number or is of another domain; the snapshot then stands at that highest number. |
| `Indexer.LateDuplicateDrops` | workers/src/indexer.ts:8 | A late duplicate anywhere in a stream leaves no trace in the result. |
| `Indexer.SameAsCleanStream` | workers/src/indexer.ts:24-34 | Every stream ends in the snapshot of its fresh events alone, which are numbered consecutively. |
| `Indexer.StandsAtLastFresh` | workers/src/indexer.ts:13-22 | A snapshot stands at its number plus the fresh events, and carries the time at which the last of them was observed. |
| `Indexer.ReplayIsIdle` | workers/src/indexer.ts:8 | Replaying applied events in any order and number leaves the whole snapshot unchanged. |
| `Indexer.WindowInvariant` | workers/src/indexer.ts:13-22 | From an in-bounds snapshot with distinct ids, every run keeps ids distinct and the list is the last 256 entries of the log that forgets nothing. |
| `SequenceRecovery.SeedFromSnapshot` | lib/sequence-recovery.ts:76-90 | The seed takes each domain's highest-numbered event, first of equals, where it is ahead of the cursor. |
| `SequenceRecovery.HighestIsFirstHighest` | lib/sequence-recovery.ts:79-84 | A seed is the first of the domain's events with the highest number, with its slot or zero. |
| `SequenceRecovery.VerdictIff` | lib/sequence-recovery.ts:49-66 | What each message is taken for, in its exact case by the domain's cursor, and how many numbers are reported missed. |
| `SequenceRecovery.CursorIsHighest` | lib/sequence-recovery.ts:49-66 | After any messages of a domain the cursor is the highest number, with the highest slot that came with a new one, regressions or not. |
| `SequenceRecovery.CursorNeverDecreases` | lib/sequence-recovery.ts:49-90 | No run of messages and seeds moves a domain's sequence cursor back. |
| `SequenceRecovery.AcceptedIncrease` | lib/sequence-recovery.ts:56-65 | Accepted numbers of a domain strictly increase over any run, from above the starting cursor, seeds in between included. |
| `SequenceRecovery.DomainsAreIndependent` | lib/sequence-recovery.ts:49-90 | The interleaved run has, for each domain, the cursor and the acceptances of that domain's messages and seeds alone. |
| `SequenceRecovery.NumbersAccountedFor` | lib/sequence-recovery.ts:59-65 | Last minus first number is in-order plus gap events plus reported missed plus what slot regressions jumped, which is reported nowhere. |
| `SequenceRecovery.ReportIsComplete` | lib/sequence-recovery.ts:59-65 | The report accounts for every number if and only if no event above the highest number so far carries a slot below the highest slot so far. |
| `SequenceRecovery.RegressionHidesMissed` | lib/sequence-recovery.ts:59-60 | From number 4 at slot 10, number 9 at slot 9 is a slot regression with nothing missed. |
| `SequenceRecovery.FirstMessageIsBaseline` | lib/sequence-recovery.ts:53-55 | The same account from an empty tracker, whose first message sets the baseline. |
| `SequenceRecovery.AgreesWithIndexer` | workers/src/indexer.ts:5-11 | From the same number the client reports a hole exactly where the indexer stops, except that a slot regression may hide it; otherwise both move to the same number. |
| `SequenceRecovery.TracksIndexer` | workers/src/indexer.ts:24-34 | Fed one event a message, over any batch the indexer applies, the client reports no gap and ends at the indexer's number. |
| `SequenceRecovery.BatchAgreesWithIndexer` | features/activity/use-market-events.ts:121 | Fed as one message, new events that the indexer applies raise no gap and no duplicate if and only if there is at most one, of a slot not below the cursor's. |
| `SequenceRecovery.BatchReachesNumber` | features/activity/use-market-events.ts:121 | The cursor ends at the indexer's number all the same. |
| `SequenceRecovery.MarketEvents.IngestEvents` | features/activity/use-market-events.ts:84-108 | The loop updates tracker, list and counters as the fold of the events in the order given says; the list keeps at most 100. |
| `SequenceRecovery.MarketEvents.OnMessage` | features/activity/use-market-events.ts:120-122 | A message is ingested last event first; it counts no duplicate if and only if, in each domain, its numbers fall and stay above the cursor. |
| `SequenceRecovery.GapsAreAlarms` | features/activity/use-market-events.ts:87-101 | The hook counts a gap for each numbered event that skips a number or falls back in slot, and for no other. |
| `SequenceRecovery.MessageLosesNothing` | features/activity/use-market-events.ts:84-121 | A message loses no event if and only if, in each domain, its numbers fall and stay above the cursor. |
| `SequenceRecovery.RisingMessageShowsLast` | features/activity/use-market-events.ts:121 | Of a message whose numbers rise, as the worker sends its snapshot, only the last number of a domain is shown, if it is new. |
| `SequenceRecovery.RisingMessageKeepsFreshIff` | features/activity/use-market-events.ts:121 | Such a message shows all its new numbers if and only if there is at most one. |
| `SequenceRecovery.NewestFirstLosesOne` | features/activity/use-market-events.ts:121 | The next two numbers in one message make a gap and a duplicate, and only the second is shown; in the order received both would be. |
| `SequenceRecovery.SnapshotReplayIsIdle` | features/activity/use-market-events.ts:69-77 | After a snapshot every event it holds, in any message, is a duplicate: no cursor moves and no gap is reported. |
| `SequenceRecovery.LoadThenReceive` | features/activity/use-market-events.ts:69-77 | A hook that loads a snapshot and then gets any messages with events of it alone keeps the snapshot's cursors and reports no gap. |
| `SequenceRecovery.IngestIsRun` | features/activity/use-market-events.ts:84-102 | Ingesting is a run of the state machine over the numbered events in the order given, which for a message is the reversed one. |
| `SequenceRecovery.IngestShowsAccepted` | features/activity/use-market-events.ts:84-102 | What is added of a domain is what the run accepts; every event is shown or counted a duplicate. |
| `SessionStore.ServeBoth` | lib/auth/route-session-store.ts:11-50 | The two stores as objects serve any statements: alike if no id is inserted twice, and neither ever finds a session revoked and not inserted since. |
| `SessionStore.LiveIsFound` | lib/auth/d1-session-store.ts:7-22 | A session not revoked, nor cleaned up before its time, is found as it was inserted with its last use, exactly until it expires. |
| `SessionStore.SqlStore.ExecuteAll` | lib/auth/d1-session-store.ts:7-22 | Serving statements one after another gives the answers and the table of the run on values. |
| `SessionStore.MemoryStore.ExecuteAll` | lib/auth/route-session-store.ts:15-46 | The same for the stand-in, whose revoke also takes the touch branch. |
| `SessionStore.MemoryStore.DeleteExpired` | lib/auth/route-session-store.ts:44 | Deleting from the map while walking it leaves exactly the unexpired rows. |
| `SessionStore.StatementAgrees` | lib/auth/route-session-store.ts:15-46 | From related tables a statement is answered alike if and only if it does not insert a present id, and then the tables stay related; the stray touch never hits, since a digest has 64 characters and a timestamp at most 16. |
| `SessionStore.SecondInsertSplits` | lib/auth/route-session-store.ts:41 | One id inserted twice: SQL refuses the second row and finds the first, the stand-in finds the second. |
| `SessionStore.StoresAgree` | lib/auth/route-session-store.ts:11-50 | Over every run that never inserts a present id both stores give the same answers and stay related. |
| `SessionStore.RevocationIsFinal` | lib/auth/d1-session-store.ts:10-16 | After a revoke every lookup of the id finds nothing until the id is inserted anew, in both stores. |
| `SessionStore.CleanupIsInvisible` | lib/auth/d1-session-store.ts:20-22 | With time not going back and ids used once, all other statements are answered as if cleanup never ran. |
| `RateLimits.SlidingLimiter.Allow` | lib/auth/application-service.ts:17-25 | The closure admits by the attempts it still stores, and touches no other key. |
| `RateLimits.ServeSliding` | lib/auth/application-service.ts:17-25 | A limiter object serving any requests lets each key in as its own requests alone decide by the log that forgets nothing, and with time not going back at most `limit` times in any window. |
| `RateLimits.SlidingDecision` | lib/auth/application-service.ts:20-22 | With time not going back a request passes if and only if fewer than `limit` admissions of all time are younger than `windowMs`. |
| `RateLimits.SlidingBound` | lib/auth/application-service.ts:17-25 | No interval of length `windowMs`, wherever it starts, holds more than `limit` admissions. |
| `RateLimits.KeysAreIndependent` | lib/auth/application-service.ts:18-23 | A key's attempts are those of the run with every other key left out. |
| `RateLimits.ServeBoth` | lib/auth/d1-rate-limit.ts:4-15 | Database and stand-in as objects answer every request alike; each key is let in as its own timely requests alone decide, with time not going back at most 19 times in any half-open minute; an invalid timestamp lets nobody in and changes nothing. |
| `RateLimits.ServeStandIn` | lib/auth/route-session-store.ts:27-37 | The stand-in's loop gives the answers of the SQL upsert, request by request. |
| `RateLimits.LimitersAgree` | lib/auth/route-session-store.ts:20-37 | After any run over any keys both limiters answer the next request alike, count included. |
| `RateLimits.RowsAreIndependent` | lib/auth/d1-rate-limit.ts:7-13 | A key's row is the one its own requests alone give. |
| `RateLimits.WindowsNeverOverlap` | lib/auth/d1-rate-limit.ts:8-12 | Windows open at least 60 s apart, and the row is the last of them with 1 to 10 admissions. |
| `RateLimits.CountIsAdmissions` | lib/auth/d1-rate-limit.ts:9 | The row's count is the number of admissions inside its window. |
| `RateLimits.FixedBound` | lib/auth/d1-rate-limit.ts:7-14 | Any half-open minute holds at most 19 admissions, any closed one at most 20. |
| `RateLimits.BoundsAreReached` | lib/auth/d1-rate-limit.ts:7-14 | Both bounds are reached by concrete runs. |
| `RecentFills.MergeKeepsNewest` | features/activity/use-recent-fills.ts:46-53 | Merging a poll into the newest hundred of what was read before gives the newest hundred of both. |
| `RecentFills.FeedIsNewest` | features/activity/use-recent-fills.ts:32-53 | After any number of polls, failed ones included, the feed is the 100 newest of all distinct fills ever read, each once and in order. |
| `RecentFills.NewestIsUnique` | features/activity/use-recent-fills.ts:51-52 | "The newest hundred" is one list, so the feed does not depend on how fills were spread over polls. |
| `OracleFreshness.StepKeepsInv` | lib/oracle-freshness.ts:27-73 | Every step of every interleaving keeps: the cached publish time is not newer than the real one, and each call's local facts. |
| `OracleFreshness.EveryRunIsSafe` | lib/oracle-freshness.ts:27-73 | The same over whole runs of any number of calls and reads in flight. |
| `OracleFreshness.ReturnedCallsKeepPromise` | lib/oracle-freshness.ts:46-73 | A returned `er()` had true age at most 7 s on the fast path, 8 s when not refreshable, its refreshed sequence served, or 8 s plus the failed refresh's duration. |
| `OracleFreshness.DecideIff` | lib/oracle-freshness.ts:49-57 | A decision returns exactly on a price at most 7 s old, or 8 s where it cannot be refreshed; it gives up exactly where it cannot, and otherwise refreshes and forgets the shared read. |
| `OracleFreshness.RefreshFailsIff` | lib/oracle-freshness.ts:58-65 | A failed refresh returns exactly if the price was at most 8 s old when it was started, and else throws. |
| `OracleFreshness.PollIff` | lib/oracle-freshness.ts:66-72 | A poll in time returns exactly if it sees the refreshed sequence or a later one; a call throws exactly when its polls, 200 ms apart, have used up the time. |
| `OracleFreshness.ReadsSharedIff` | lib/oracle-freshness.ts:28-45 | A call uses the shared read exactly if it is younger than 1.5 s; a background read is sent exactly if there is none or it is at least 750 ms old. |
| `OracleFreshness.FallbackAgeIsReached` | lib/oracle-freshness.ts:60-65 | The last bound is exact: for every duration some run returns at age 8 s plus that duration. |
| `ChainTransport.ConfirmTransaction` | workers/src/chain-transports.ts:192-220 | The polling loop terminates when sleeping takes time and gives the outcome of the polled turns, which is justified; an error is reported exactly if the last call made threw. |
| `ChainTransport.VerdictIsJustified` | workers/src/chain-transports.ts:198-219 | Success comes only from an error-free status at or above the target, failure only from an error, expiry only from an unseen transaction past its height, an error only from a call that threw, a timeout only at the deadline; no poll before the last found the transaction finished. |
| `ChainTransport.PollDecides` | workers/src/chain-transports.ts:198-206 | When no call threw, a status that has failed or reached the target at any poll ends the loop there with exactly that verdict. |
| `ChainTransport.FirstDecisionCounts` | workers/src/chain-transports.ts:192-220 | With answers at once the polls come an interval apart from the start: the first that is not quiet gives the verdict if it comes before the deadline, and otherwise the loop times out. |
| `ChainTransport.ExpiryVerdict` | workers/src/chain-transports.ts:192-220 | On a lawful chain an expiry verdict of the loop is right if and only if nothing landed between the two reads of its last poll. |
| `ChainTransport.ExpiryRace` | workers/src/chain-transports.ts:199-215 | A lawful chain on which a landed transaction is reported expired. |
| `ChainTransport.SuccessLasts` | workers/src/chain-transports.ts:192-220 | With growing commitments a success of the loop stays true from its last read on. |
| `ChainTransport.TimeoutMeansUnfinished` | workers/src/chain-transports.ts:192-220 | With growing commitments a loop that times out has polled, and up to its last poll the transaction had neither failed nor reached the target. |
| `ChainTransport.WithRetry` | workers/src/chain-transports.ts:113-125 | At most `maxAttempts` calls, each after the first following a retryable error; the result is that of the last call and the total wait the sum of the delays. |
| `ChainTransport.DelayGrowsToCap` | workers/src/backoff.ts:5-7 | Delays do not decrease and stop at 30 s. |
| `ChainTransport.TotalDelayClosedForm` | workers/src/backoff.ts:5-7 | The total wait in closed form: doubling for seven waits, then 30 s each. |
| `Funding.DeltaIsMonotone` | workers/src/funding-source.ts:30-36 | A dearer mark never lowers the delta, under rounding toward zero at both divisions. |
| `Funding.DeltaIsOdd` | workers/src/funding-source.ts:30-36 | Marks equally far above and below the index give opposite deltas. |
| `Funding.DeltaIsCapped` | workers/src/funding-source.ts:30-36 | The delta stays within cap times scale over 10000, and reaches it when the premium is at or past the cap. |
| `Funding.CapReachedIff` | workers/src/funding-source.ts:24-36 | With a scale of at least 10000, as on chain, the capped delta is reached if and only if the mark is above the index by at least `capBps` ten-thousandths of it. |
| `Funding.DeltaRoundsDown` | workers/src/funding-source.ts:30-36 | The delta of a mark at or above the index by its two roundings: whole basis points of the index, capped, then whole units of the scale. |
| `Funding.AccumulatorBound` | workers/src/funding-source.ts:57-74 | Over any run of ticks the accumulator moves by at most that bound for each settled tick, and not at all without a mark of its own. |
| `Funding.SettlesIff` | workers/src/funding-source.ts:57-74 | A tick settles exactly when not paused, on a verified oracle, and once the interval is over; settlements are an interval apart up to a second. |
| `Lifecycle.ReachableStates` | lib/lifecycle.ts:39-72 | Every reachable state in closed form: both counters from the phase (or the phase an error came from) and the withdrawals since the last reset; a session expires 15 minutes after its delegation, exactly while it is open. |
| `Lifecycle.LeadIsOneWhileFunded` | lib/lifecycle.ts:43-50 | L1 leads by 0 or 1, by 1 exactly between deposit and delegation. |
| `Lifecycle.CountersOnlyResetLowers` | lib/lifecycle.ts:39-72 | No event but a reset lowers a counter; commits never lower L1's. |
| `Lifecycle.MovesAlongRoundTrip` | lib/lifecycle.ts:39-72 | An event moves one step along the round trip, fails, resets, or changes nothing at all. |
| `Lifecycle.RoundTripGoesThrough` | lib/lifecycle.ts:41-64 | From rest a session opens, a commit comes back to it, and closing it brings back a state at rest with both counters equal. |
| `PriceLevels.LevelsFrom` | features/trading/use-v3-book.ts:36-53 | Filling a map in node order and sorting its entries gives the ordered levels. |
| `PriceLevels.LivePrice` | features/trading/use-v3-book.ts:39-48 | A node that counts has a positive price and a positive quantity. |
| `PriceLevels.LivePriceIff` | features/trading/use-v3-book.ts:38-48 | At which price a node counts, if and only if: a leaf with quantity and time left, pegged ones at the oracle plus the offset on the permitted side of their limit; a zero `bigint` counts as missing. |
| `PriceLevels.LevelsAreSums` | features/trading/use-v3-book.ts:36-53 | Prices strictly ordered, best first; each level is the sum of live quantities at its price and positive; every price with live quantity has its level. |
| `PriceLevels.QuantityIsConserved` | features/trading/use-v3-book.ts:47-50 | The sizes sum to the quantities of the live leaves. |
| `PriceLevels.LevelsOfPermutation` | features/trading/use-v3-book.ts:36-53 | Any order of the same nodes gives the same levels. |
| `PriceLevels.LevelIsOrderSum` | features/trading/use-v3-book.ts:116-130 | The exact difference of a level and the listed orders at its side and price: leaves with a zero `bigint` expiry, and orders of a side byte above 1; at a price of zero or less orders are listed and there is no level. |
| `PriceLevels.NeverExpiringIsUnlisted` | features/trading/use-v3-book.ts:40 | A live leaf with expiry zero, the chain's mark for no expiry, makes a level and is listed nowhere. |
| `PriceLevels.LevelIsOrderSumWhenWellFormed` | features/trading/use-v3-book.ts:116-130 | With side bytes 0 or 1 and no zero expiry, each level is the sum of the listed orders. |
| `PriceLevels.PathsCompared` | features/trading/use-v3-book.ts:156-173 | Both read paths list the same orders; their levels differ by exactly the zero-expiry leaves, which only the direct path shows. |
| `BookView.BookFromAggregate` | features/trading/use-v3-book.ts:151-174 | The fallback gives a view if and only if the answer is complete, of the right domain and no leaf lacks a field; bids fall and asks rise in price, each level is what the fixed leaves have there, and the orders are those leaves field by field. |
| `BookView.ViewIsRight` | features/trading/use-v3-book.ts:122-130 | What a view shows, said of the leaves alone: bids from the highest price down, asks from the lowest up, every level and no other, every listed order with all its fields. |
| `BookView.FixedOnlyKeeps` | features/trading/use-v3-book.ts:114-116 | A leaf outside the pegged tree is kept exactly as often as it is there, and nothing else is. |
| `BookView.AggregateLevelsAreOrders` | features/trading/use-v3-book.ts:156-173 | Out of JSON a bid level is the sum of the listed bids, an ask level that of the listed asks less those of an odd side byte. |
| `BookTrees.WalkVisits` | workers/src/v3-market-state.ts:155-172 | A valid walk visits handles of the table, marks them, reaches each from its start, closes under children and replaces no mark. |
| `BookTrees.AnnotateMarksReached` | workers/src/v3-market-state.ts:138-179 | When the trees are accepted a node is marked with a tree if and only if a root of that tree reaches it through child handles. |
| `BookTrees.TreesAreDisjoint` | workers/src/v3-market-state.ts:147-160 | No node of an accepted book is reached in both trees. |
| `BookTrees.ChildrenRead` | workers/src/v3-market-state.ts:164-172 | Children are read from the side's first page with the handle's page number, at the handle's slot of 115. |
| `BookTrees.RootRead` | workers/src/v3-market-state.ts:143-146 | Both roots are read from the side's first page zero; without one there is none. |
| `BookTrees.HandleNamesLast` | workers/src/v3-market-state.ts:140-142 | A handle names the last node of the side that carries it. |
| `BookDecoder.ClearMarks` | features/trading/use-v3-book.ts:112 | Clearing removes whatever earlier or half-failed calls left. |
| `BookDecoder.BuildHandles` | workers/src/v3-market-state.ts:140-142 | The handle table of the node objects agrees with the table of places, later nodes replacing earlier ones. |
| `BookDecoder.WalkTree` | workers/src/v3-market-state.ts:155-172 | The recursive walk that marks nodes in place computes the walk on values and leaves its marks on the heap. |
| `BookDecoder.AnnotateBookTrees` | workers/src/v3-market-state.ts:138-179 | On cleared nodes the in-place annotation answers and leaves exactly what the annotation on values computes. |
| `BookDecoder.DecodeCache.CachedPage` | features/trading/use-v3-book.ts:102-105 | A page is decoded once per byte array and the cache only grows; new nodes are fresh objects. |
| `BookDecoder.DecodeCache.DecodeBundle` | features/trading/use-v3-book.ts:108-132 | For every history of the caches and marks the answer is the bundle computed from the bytes and the sharing of the page arrays alone; it shows the fixed leaves in price order and field by field, with the positions and trades of its seats and events. |
| `BookDecoder.PositionsInOrder` | features/trading/use-v3-book.ts:117 | Positions come seat shard by seat shard; a missing one has none. |
| `BookDecoder.RecordsInOrder` | features/trading/use-v3-book.ts:125 | There is a list of records for each event shard in its place; a missing one is empty. |
| `BookDecoder.DistinctIsAfresh` | features/trading/use-v3-book.ts:97-109 | With page arrays all different the answer is that of decoding everything afresh. |
| `BookDecoder.SharedPageDiffers` | features/trading/use-v3-book.ts:109-116 | A page array given twice can change the fixed leaves: shared, both listings of a pegged leaf are left out; apart, one stays. |
| `PageSharing.AnnotateFolded` | workers/src/v3-market-state.ts:138-179 | Sharing never decides whether the trees are accepted; the marks under sharing are those of the pages decoded apart, each moved to where its array keeps it. |
| `PageSharing.SharingShowsIff` | features/trading/use-v3-book.ts:108-130 | Levels and orders are those of pages decoded apart if and only if no array given twice holds a pegged leaf that would be listed or stand in a level. |
| `PageSharing.BundleIsAfreshIff` | features/trading/use-v3-book.ts:108-132 | The whole answer with sharing is the fresh one if and only if there is none or that condition holds. |
| `LiveFeed.PublishRemembersIffNoThrow` | features/trading/use-v3-book.ts:235-242 | A publish keeps "the remembered text is that of the slot" if and only if no decode throws. |
| `LiveFeed.SkippingIsHarmless` | features/trading/use-v3-book.ts:235-241 | The loop that skips unchanged payloads leaves the slots that decoding every pending entry would. |
| `LiveFeed.FeedMatchesReference` | features/trading/use-v3-book.ts:228-309 | In every run of pushes, publishes and snapshots the slots are those of the reference that queues every push and decodes all in order; pending pushes win over a snapshot. |
| `LiveFeed.OverwriteRemembers` | features/trading/use-v3-book.ts:281 | A snapshot keeps the memory true even when it throws half way. |
| `LiveFeed.BadPayloadSticks` | features/trading/use-v3-book.ts:239-240 | A payload that does not decode is remembered, and the next publish skips it, reports success and keeps the old bytes. |
| `LiveFeed.OtherEncodingIsMissed` | features/trading/use-v3-book.ts:238 | The same text in another encoding is not decoded again. |
| `LiveFeed.MixedPublishIff` | features/trading/use-v3-book.ts:235-241 | Whatever the encodings and the memory, a publish of decodable entries gives what decoding them all gives if and only if each skipped entry's slot already holds its decode. |
| `LiveBook.LiveBook.ApplyPending` | features/trading/use-v3-book.ts:235-241 | The loop on the heap is the loop on values; every decode makes an array of its own. |
| `LiveBook.LiveBook.PublishNow` | features/trading/use-v3-book.ts:232-259 | A book with a level on either side is always rendered and is the fresh decode of the current accounts; an empty one is held back exactly for 2.5 s after the last quoted one; a throw shows nothing. |
| `LiveBook.LiveBook.OnSnapshot` | features/trading/use-v3-book.ts:271-288 | A snapshot overwrites the accounts, then publishes the pending pushes over it; a wrong length changes nothing. |
| `LiveBook.BookIsReferenceBook` | features/trading/use-v3-book.ts:228-309 | After every sound run the book equals the one of a reader who decodes every push in order and every account afresh. |
| `LiveBook.BookAfter` | features/trading/use-v3-book.ts:228-309 | A live book taken through any sound run of pushes, publishes and snapshots decodes to that reader's book. |
| `OrderKeys.LessIsNumeric` | programs/equinox/src/book.rs:1630-1635 | Comparing two keys at the first bit in which they differ is comparing the numbers. |
| `OrderKeys.PriceTimePriority` | programs/equinox/src/book.rs:889-900 | Keys of a side compare as price-time priority says: better price first (lower ask, higher bid), then earlier sequence; equal keys only for equal price and sequence. |
| `OrderKeys.OffsetTimePriority` | programs/equinox/src/book.rs:902-908 | The same for oracle offsets, negative ones included, under the flipped sign bit. |
| `OrderKeys.KeyIsNumber` | programs/equinox/src/book.rs:889-908 | The number that a key is: price, or its complement for bids, over the sequence; an offset with its sign bit flipped; only a price of zero or less has none. |
| `Patricia.ShapedAscends` | programs/equinox/src/book.rs:1-7 | Every well-formed tree lists its orders in strictly ascending key order. |
| `Patricia.FrontHasPriority` | programs/equinox/src/book.rs:1-7 | The first order of a tree of fixed orders has the best price, and the earliest sequence at that price. |
| `Patricia.FindIsLookup` | programs/equinox/src/book.rs:430-450 | The walk that looks at one branch per fork finds a key if and only if some leaf has it. |
| `Patricia.WalkFindsFirstExpired` | programs/equinox/src/book.rs:564-583 | Descending by the cached expiries finds the first expired order in key order, and none exactly when none has expired. |
| `Patricia.WayIsShort` | programs/equinox/src/book.rs:390-392 | Forks get deeper on every way down, so the path array of 128 entries never overflows. |
| `Patricia.SplitInserts` | programs/equinox/src/book.rs:339-389 | Putting a fork above the subtree that a new key parts from inserts the order at its place in the list. |
| `Patricia.UnsplitRemoves` | programs/equinox/src/book.rs:474-481 | Putting the sibling in the place of a leaf's fork removes exactly that order and keeps the tree well formed. |
| `Patricia.FullSweep` | programs/equinox/src/book.rs:585-596 | A sweep with room for all expired orders leaves exactly the others, in order. |
| `BookArena.Arena.constructor` | programs/equinox/src/book.rs:172-184 | A new arena is sound, empty and untouched. |
| `BookArena.Arena.Allocate` | programs/equinox/src/book.rs:244-262 | The most recently freed slot is handed out first, then the next unused one; it fails only when neither exists, and a slot handed out is in use nowhere else. |
| `BookArena.Arena.ReleaseUnwritten` | programs/equinox/src/book.rs:290-321 | Giving back an unwritten slot leaves a sound arena, by un-bumping or by the free list. |
| `BookArena.Arena.ReplaceChild` | programs/equinox/src/book.rs:504-519 | Redirects one child and its cached expiry and touches no node off the path. |
| `BookArena.Arena.RefreshPath` | programs/equinox/src/book.rs:521-539 | Refreshing bottom up makes every cached expiry on the path right again and touches nothing else. |
| `BookArena.Arena.Find` | programs/equinox/src/book.rs:430-450 | Gives the slot of the order with the key, or `MissingKey` exactly when no order has it. |
| `BookArena.Arena.Best` | programs/equinox/src/book.rs:552-562 | Gives the slot of the first order of the sorted list. |
| `BookArena.Arena.FirstExpired` | programs/equinox/src/book.rs:564-583 | Gives the slot of the first expired order of the sorted list. |
| `BookArena.Arena.Insert` | programs/equinox/src/book.rs:323-401 | `DuplicateKey` if and only if the key is present; `Full` if and only if too few slots are left; otherwise the list with the order inserted at its place, all other orders in their slots, the other tree unchanged. A failure leaves all orders; in an arena without stale tags it leaves one if and only if it is `Full` with slot 1023 on top of the free list. |
| `BookArena.Arena.AvailableInOrders` | programs/equinox/src/book.rs:403-428 | How many slots are left is a function of the two numbers of orders alone, whatever came and went before; the leaf counts are those numbers. |
| `BookArena.Arena.CanInsert` | programs/equinox/src/book.rs:403-428 | The answer of insertion with so many more slots and the trees as they are. |
| `BookArena.Arena.InsertAfterPlan` | programs/equinox/src/book.rs:403-427 | For any orders removed from the arena itself: asked with their number, a promise of room is kept by insertion after the removals; a refusal for want of room is right unless the arena is full and one order is removed that is not the other tree's only one. |
| `BookArena.RefuseWhatFits` | programs/equinox/src/book.rs:403-427 | Asked with the number 1 a full arena refuses an order that fits once one of its own orders is removed; settlement never asks so. |
| `BookArena.Arena.Remove` | programs/equinox/src/book.rs:452-489 | Returns the order and leaves the list without it, or `MissingKey` exactly when absent and then changes nothing. |
| `BookArena.Arena.RemoveOwned` | programs/equinox/src/book.rs:491-502 | Removes only for the owner; each error exactly in its case, and then nothing changes. |
| `BookArena.Arena.SweepExpired` | programs/equinox/src/book.rs:585-596 | Removes the first `max` expired orders in key order and counts them; no other order is touched. |
| `BookArena.Arena.CancelIn` | programs/equinox/src/book.rs:612-650 | The scan by slot, which removes while it reads, cancels exactly the owner's orders in the slots passed. |
| `BookArena.Arena.CancelOwnerSummary` | programs/equinox/src/book.rs:602-652 | Count, bid and ask quantities and notional cancelled plus what the owner has left equal what the owner had, column by column; below the limit the summary is all the owner had and everyone else's orders stay; unless it stops at the limit, it fails if and only if a sum over the owner's own orders does not fit its bits. |
| `CancelSums.BothGone` | programs/equinox/src/book.rs:625-644 | The checked sums over two scans either fit and balance against the books, or some sum over the owner's orders is too large. |
| `CancelSums.ScanSumsUp` | programs/equinox/src/book.rs:625-645 | Each column is the sum over the owner's orders themselves: quantities of bids, of asks, and quantity times positive price. |
| `BookArena.LeaveStaleTag` | programs/equinox/src/book.rs:290-302 | A run of insertions and one removal after which a slot past the allocated ones carries the tag of the free list. |
| `BookValidation.ShapedIsLocal` | programs/equinox/src/book.rs:729-744 | In a well-formed tree every check between a fork and its child passes. |
| `BookValidation.LocalIsShaped` | programs/equinox/src/book.rs:729-744 | The checks between forks and their own children make the whole tree well formed. |
| `BookValidation.ValidateTree` | programs/equinox/src/book.rs:710-771 | The walk with an explicit stack accepts a root if and only if it holds a well-formed tree with right expiries in slots not yet seen, and finds that tree; its stack of 129 entries never overflows. |
| `BookValidation.ValidateFree` | programs/equinox/src/book.rs:665-681 | The walk of the free list accepts if and only if it is a list of unused slots without repetition, and ends even on a cyclic one. |
| `BookValidation.Validate` | programs/equinox/src/book.rs:654-694 | Accepts an arena if and only if it spells out two well-formed trees and a free list with every allocated slot in exactly one place, and all later slots have their first tag: the arenas that the operations keep, without a stale tag. |
| `BookArena.Arena.SetQuantity` | programs/equinox/src/book.rs:216-233 | Writing another quantity into a leaf changes that order alone: slots, keys, expiries and the other tree stay, and the arena stays sound. |
| `Matching.QuotesSorted` | programs/equinox/src/book.rs:889-956 | Whatever the oracle, key order among the orders of a tree that can trade is price-time order, also where the key holds an offset. |
| `Matching.CandidateIsFront` | programs/equinox/src/book.rs:1582-1609 | With no dead order on top, the better of the two trees' heads is the front of the one queue of all orders that can trade, and taking it leaves the queue's rest. |
| `Matching.TradeConserves` | programs/equinox/src/book.rs:1252-1331 | What a taker brings is filled, remains, or is given up against its own orders passed over: all that is on them, unless the taker ends there. |
| `Matching.TradeTakesFront` | programs/equinox/src/book.rs:1232-1331 | Priority: the makers met are exactly the first ones of the queue and cross; only the last may stay with less on it, and then the taker is at its end; nobody behind is touched. |
| `Matching.RestCrossesIff` | programs/equinox/src/book.rs:1223-1251 | What remains of a taker still crosses the queue left if and only if more makers crossed than were met. |
| `MakersMet.TradeComesTo` | programs/equinox/src/book.rs:1223-1334 | What trading comes to, said of the queue as it was: which makers are met; for each fill its maker, price, client id, slot, tree and quantities; what remains of the taker and of the queue; and why it ended. |
| `MakersMet.TradedIsUnique` | programs/equinox/src/book.rs:1223-1334 | That description leaves nothing open. |
| `MakersMet.QueueIsTradable` | programs/equinox/src/book.rs:910-956 | The queue holds exactly the orders with quantity and time left, a pegged one at the oracle plus its offset and within its own limit. |
| `MakersMet.DeadIff` | programs/equinox/src/book.rs:1181-1186 | Which orders matching may clear, by their fields. |
| `HeadClearing.ReachIsQueue` | programs/equinox/src/book.rs:1479-1556 | With removals enough for all dead orders, matching head by head comes to the makers of the whole queue in its order. |
| `HeadClearing.CandidateIsFrontIff` | programs/equinox/src/book.rs:1582-1609 | The better head is the queue's front if and only if no dead head hides the front's tree. |
| `HeadClearing.PriorityKeptIff` | programs/equinox/src/book.rs:1490-1513 | Head by head the first n makers come in price-time order if and only if the removals allowed are as many as the dead heads that must go first, counted on the books alone. |
| `HeadClearing.TurnsSufficeIff` | programs/equinox/src/book.rs:1479-1487 | A number of turns suffices for n makers if and only if it is at least n and the dead heads in their way. |
| `MatchEngine.MatchOpposing` | programs/equinox/src/book.rs:1437-1556 | Matching in place up to filing the rest: each error in its exact case and then nothing changes; fills, field by field, remainder and cancels are those of the makers reached; only fronts of the two trees are gone and the counters account for each order gone; all is left as it was if and only if there is nothing to do; with room to clear the dead orders the makers reached are the queue, and its rest is left. |
| `MatchEngine.MatchLimit` | programs/equinox/src/book.rs:1437-1566 | With filing the rest: errors exactly before matching or from filing; the own side changes only by the rest, which has the order's fields; an error leaves the makers as they were if and only if it comes first or matching has nothing to do. |
| `MatchEngine.RestJoins` | programs/equinox/src/book.rs:863-886 | The rest joins its tree as one entry more, with the order's own fields and the remaining quantity, and nothing else changes. |
| `MatchEngine.TakerPriceIff` | programs/equinox/src/book.rs:1451-1457 | A fixed taker has its own price, a pegged one the oracle plus its offset if that is a 64-bit number, and otherwise there is none. |
| `MatchEngine.EngineKeepsPriorityIff` | programs/equinox/src/book.rs:1479-1556 | The makers that matching in place meets are the first of the price-time queue if and only if it may clear as many dead heads as hide one of them. |
| `MatchPlan.BestVirtual` | programs/equinox/src/book.rs:1359-1435 | Reading the arena slot by slot through the plan finds an order that no order seen through the plan is ahead of. |
| `MatchPlan.ClearAll` | programs/equinox/src/book.rs:1170-1222 | Planning the removal of dead orders succeeds if and only if their numbers are within the limits, and then plans one removal for each and none else. |
| `MatchPlan.PlanLimit` | programs/equinox/src/book.rs:1117-1335 | The planner changes nothing; each error in its exact case, a plan of more than sixteen actions included; otherwise its fills, field by field, and counters are what sixteen steps from the front of the queue give, under each way of treating the taker's own orders; its actions are all on the opposing side, leave no dead order, show exactly the queue's rest and mark exactly the own orders passed over. |
| `Settlement.ApplySettlement` | programs/equinox/src/handlers.rs:3340-3365 | Applying a plan does each of its actions and no other, leaves no dead order, and makes the arena's queue exactly what was seen through those of its actions that are not phantoms. |
| `Settlement.Settle` | programs/equinox/src/handlers.rs:2757-2799 | Planning and applying leaves the arena with no dead order and with the own orders that a decrementing taker passes over followed by the rest of the queue, or untouched when the planner fails or the taker gives up. |
| `Settlement.SameEndIff` | programs/equinox/src/book.rs:1223-1226 | A smaller number of turns ends as sixteen do if and only if no more makers are met than there are turns. |
| `Settlement.CompareEngines` | programs/equinox/src/book.rs:1117-1556 | On two arenas with the same orders, whenever the plan succeeds so does matching in place, and both give the same fills, remainder, cancels and queue if and only if the turns suffice for the makers that the queue says are met and the dead heads in their way, which is a condition on the books, the order and the limits; they do whenever at most `maxExpired + 2` of the taker's own orders cross. |
| `Placement.CountRemoved` | programs/equinox/src/handlers.rs:3417-3440 | Of a plan just made every action's order is found as the plan expects it, and none is counted as removed on the taker's own side. |
| `Placement.CheckPlan` | programs/equinox/src/handlers.rs:3417-3460 | The check before a plan is applied answers exactly what filing the rest answers afterwards. |
| `Placement.PlaceOn` | programs/equinox/src/handlers.rs:2757-2814 | Placing is all or nothing: each refusal in its exact case leaves both sides as they were, and filing the rest cannot fail once the plan is applied. |
| `Placement.StaysApartIff` | programs/equinox/src/mark.rs:23-24 | Bids and asks that did not cross before an order do not cross after it if and only if no rest is filed that crosses a maker left. |
| `Placement.RestCrossesWhen` | programs/equinox/src/handlers.rs:2800-2814 | For an order with none of its owner's in the way: a rest is left that crosses if and only if more makers cross than may be filled and the order asks for more than is on the first ones. |
| `Placement.PlannerRefusesIff` | programs/equinox/src/handlers.rs:2768-2774 | With the limits of placing, the planner refuses exactly more than two expired makers, more than four otherwise dead, or more than sixteen removals and fills. |
| `Placement.Market.Place` | programs/equinox/src/handlers.rs:2725-2818 | In every run: orders rest on their side under their keys, no number is given out twice, no key is taken; a refusal changes nothing; the rest is filed with the request's fields; a market not crossed at the order's index price and time is crossed afterwards if and only if a rest is filed that crosses. |
| `Placement.Market.Cancel` | programs/equinox/src/handlers.rs:3488-3501 | Exactly the owner's fixed bid with the key goes, or else the ask; nothing else changes and an uncrossed market stays so. |
| `MatchWitnesses.TurnsRunOut` | programs/equinox/src/book.rs:1479-1487 | Two arenas with three of the taker's own asks before another's, one fill allowed and nothing to clear: the engines run on them do not agree. |
| `MatchWitnesses.LosePriority` | programs/equinox/src/book.rs:1503-1505 | An arena in which an expired ask may not be removed: the taker buys at a worse price from the other tree, and the better ask stays. |
| `MatchWitnesses.LateError` | programs/equinox/src/book.rs:1557-1564 | A bid at price zero is refused only when its rest is filed, with an expired ask already gone. |
| `MatchWitnesses.LeaveCrossed` | programs/equinox/src/handlers.rs:2757-2814 | Five asks and a bid for five at one price, placed one after the other, leave the market crossed. |

## Left out

- React rendering, timers, sockets, wallets, transaction encoding and signing: user interface and foreign code.
- Floating point: prices, quantities and ages are exact integers. `Number` conversions are exact up to 2^53 - 1; a record timestamp above that, which the source rounds, stays exact in `EventCodec.DecodeRecord`.
- The byte layouts of book pages, seats and event shards (`decodeV3BookPage` and its neighbours) and the making of trades from records: parameters of `BookDecoder.Decoders`, any deterministic functions whose leaves carry every field.
- The names of event kinds by discriminator: a table.
- `EventCodec.EventLogLine`: integers are not negative; a text is its sequence of characters, where the source slices UTF-16 code units.
- `SequenceRecovery.MarketEvents.OnMessage`: a message is the list of events taken from it; the envelopes that `lib/market-stream-events.ts` unpacks are not modelled. It gives none for an envelope with a single `event` field and no kind, such as the worker's delta.
- SHA-256: digests enter as 64-character ids and are taken to be distinct for distinct cookies.
- `RecentFills.FeedIsNewest`: takes a fill's record as never changing and time and sequence together as unique, since the source's comparator is not an order otherwise; the cut to 50 newest per market happens before a poll enters the model.
- `RecentFills.NewestIsUnique`: the same; two fills of different markets at one time and sequence have no order in the source.
- `OracleFreshness.EveryRunIsSafe`: `l1()` is left out, since it only forwards the refresh; HTTP answers are reduced to success with a sequence or failure.
- `LiveBook.LiveBook.PublishNow`: the `stopped` flag, the scheduling of frames and the status texts are left out.
- `ChainTransport.WithRetry`: the message patterns that classify an error are a parameter.
- `BookDecoder.DecodeCache.DecodeBundle`: the pages it reads are written by `programs/equinox/src/v3.rs`, a paged book of its own that is not part of this model; nothing is said of how they relate to the arenas of `programs/equinox/src/book.rs`.
- `BookArena.Arena.Insert`: assumes a sound arena, which every operation keeps and `BookValidation.Validate` decides; the errors for bad tags and handles are then unreachable and are not modelled.
- `BookValidation.Validate`: answers yes or no; which of its errors is returned is not modelled. Bit sets are sequences of booleans, a key its 128 bits.
- `BookArena.Arena.CancelOwnerSummary`: limits and counts are unbounded numbers instead of bytes; a count never exceeds the limit.
- The wrappers of arena operations that skip the checks.
- `MatchEngine.MatchLimit`: counters are unbounded numbers instead of bytes. Orders are taken to rest on their side under the key of their price and sequence, as they are made, which `Placement.Market` keeps.
- `MatchPlan.PlanLimit`: takes a sequence number as given out once, so that no fixed and pegged order share one, which `Placement.Market` keeps; with such a tie the planner would take the lower slot and matching in place the fixed order.
- `Placement.Market.Place`: market modes, seats, margins, fees, reduce-only orders, funding and events are left out, and with them their refusals and the comparison of the plan with the market header; replacing an order is not modelled.
- The deposit, withdrawal and session-nonce protocols, and the on-chain program's margins, fees and seat balances.
