# Astraeusio, modelled and proved in Dafny

Astraeusio polls space-weather feeds, stores them in one DuckDB file behind a single
writer task, forecasts Kp, raises anomalies and e-mail alerts, and serves all of it to
accounts. Its comments state strong rules. This project models the stateful cores those
rules are about and proves the rules over every input, every run and every interleaving.

Tables are maps keyed by their primary keys and change inside classes whose methods run
the same loops between BEGIN and COMMIT or ROLLBACK. Each method is proved against a
specification function; the theorems are about those functions and about runs of them.
Clocks, the database's cast of a time tag, the provider's answer to a send and the order in
which the database returns equal times are parameters, or relations that allow every answer.
`Backend` puts ten tables under the writer queue: solar wind, magnetic field, kp, kp_3h, dst,
x-ray, starlink, forecasts, usage and webhook deliveries. What is proved of each of those
tables' own runs holds of the one store they share, in every interleaving.

| file | what it models |
|---|---|
| `SeriesStore` | the two-spacecraft upsert and the reads that choose one row a minute |
| `FeedWriters` | the kp, xray, dst, kp_3h and starlink batch writers |
| `ForecastStore`, `ForecastMigrations`, `ForecastMetrics` | storing, migrating and scoring forecasts |
| `DeliveryLog`, `UsageRecords`, `AnomalyReads` | the trimmed delivery log, sparse usage, the scoped anomaly readers |
| `WriterQueue`, `Backend` | the bounded writer queue, and the modelled tables behind it |
| `Credentials` | token versions, the version cache, sessions and purpose links |
| `AlertDispatch` | the e-mail dispatcher and its cooldown |
| `JsonLiterals`, `Utf8`, `TleFeed` | the JSON literal scanner and the three-line satellite parser |
| `Doubles`, `Thresholds` | rounded arithmetic, and decimal thresholds through it |
| `ForecastTargets` | target alignment, walk-forward folds and decoding in the ml service |
| `MutationHarness` | the line-ending view, edits and restore of the mutation harness |
| `Prelude` | shared result types, text order, choices from finite collections |

## Where a rule does not hold as written

Each of these has a theorem over all inputs that says exactly when the rule holds, and a
concrete input that breaks it; the x-ray comment is broken by every correction.

- A session from before a completed credential change can be accepted again. An answer is
  behind the store exactly when the entry it hit was made from a version read before a
  change, or is the 0 an API call puts where there is no entry
  (`backend/src/rate_limit.rs:108-117`), or when the handler itself read before a change and
  answers with that, whatever the entry says by then (`backend/src/rate_limit.rs:273-293`):
  `Credentials.AnAnswerIsOldExactlyWhen`. Once the change is completed, an entry is wrong
  exactly when the one step that made it cached a stale version
  (`Credentials.EntryIsStaleExactlyWhen`), whatever became of any other entry.
- A change is completed by the clear of the cache. Where the handler goes away after the
  write, or the write reports an error, no clear follows, and sessions from before it are
  accepted for as long as the entry lasts: `Credentials.AnUnclearedChangeKeepsItsEntry`.
- A reset link can succeed twice (`backend/src/auth.rs:254-264`, `backend/src/auth.rs:1101-1104`):
  exactly when a handler resets with a link another handler is holding past its own check,
  and that one goes on to write. `Credentials.ALinkResetsAtMostOnceIff`, link by link.
- The comment inside `insert_xray_batch` says corrections of stored readings are applied
  (`backend/src/db.rs:2189-2202`). The filter on the newest stored tag above it
  (`backend/src/db.rs:2180-2183`) drops them, and a stored x-ray row never changes:
  `FeedWriters.StoredRowsNeverChange`. The model follows the code.
- Cutting a kp or x-ray batch in two can store less than the whole batch. The readings kept
  are the same exactly when the first half stores every reading of the second that it
  overtakes (`FeedWriters.CutKeepsEveryRecordWhen`), and the rows are the same exactly when,
  besides, those offers would leave the row unchanged (`FeedWriters.CutIsExactWhen`).
- Paging the event list repeats a row and loses another exactly when a page boundary falls
  between rows of equal time (`backend/src/db.rs:3503-3508`):
  `AnomalyReads.PagingIsExactUnlessATieIsSplit`.
- Two alerts to one account can be less than an hour apart, exactly when one is sent within
  the hour of an alert to it whose cooldown write was not applied when the cycle read,
  dropped or merely late (`backend/src/poller.rs:841-850`):
  `AlertDispatch.AlertsAreAnHourApartIff`, account by account.
- Matching on the plain-newline view and putting the file's ending back is the identity on
  a file with no edits exactly if its line endings are not mixed
  (`MutationHarness.NoEditsIsTheIdentityWhen`). The restore is exact anyway, or says it failed.

## Model

| member | source | states |
|---|---|---|
| SeriesStore.Store.InsertBatch | backend/src/db.rs:2120-2164 | A batch is stored whole or not at all: refused exactly when some record has a tag that cannot be cast or no source |
| SeriesStore.RunClosedForm | backend/src/db.rs:2263-2305 | After any run of batches, however cut, a key holds the values and flag of the first active record accepted for it, else of the first of all, and the first record's tag |
| SeriesStore.StoredExactlyAsOffered | backend/src/db.rs:2130-2141 | On the raw records: a minute and spacecraft has a row exactly when some record of a taken batch casts to that minute and names that spacecraft; the row has the first such record's tag and the values of the first of them flagged active, else of the first |
| SeriesStore.ClosedForm | backend/src/db.rs:2130-2141 | The conditional upsert, key by key, as a choice over everything offered for the key |
| SeriesStore.ChosenIsFirstActive | backend/src/db.rs:2141 | What "chosen" means by position: nothing active stands before it, and it is active unless nothing is |
| SeriesStore.RunIsOneBatch | backend/src/db.rs:2120-2164 | Any run of committed and refused batches is one batch of the accepted records |
| SeriesStore.RefetchIsANoOp | backend/src/db.rs:2263-2305 | Offering again records already offered changes no row at all |
| SeriesStore.OrderIsIrrelevant | backend/src/db.rs:2120-2164 | When no key repeats, any rearrangement of the records gives the same table |
| SeriesStore.OneRowForEachMinute | backend/src/db.rs:1045-1057 | Each minute after the cutoff that has a considered row yields exactly one row, and no other minute yields any |
| SeriesStore.SelectionsAgree | backend/src/db.rs:1003-1034 | A row is decided exactly when it is displayed and active; an inactive row is displayed only where nothing active exists |
| SeriesStore.DisplayedExactlyWhen | backend/src/db.rs:1045-1057 | A row is displayed exactly when it is after the cutoff and no row of its minute goes before it: an active one before an inactive one, then the lesser source name |
| SeriesStore.DecidedExactlyWhen | backend/src/db.rs:1013-1034 | A row is decided exactly when it is active, after the cutoff, and no active row of its minute has a lesser source name |
| TextOrder.LessIsLexicographic | backend/src/db.rs:1051 | The order on source names and tags, without its recursion: a proper prefix first, else the first character that differs |
| SeriesStore.DecidedProvenance | backend/src/db.rs:1013-1034 | In every reachable table a decided value was measured by a record flagged active for that minute and source |
| SeriesStore.LatestDecided | backend/src/db.rs:3605-3623 | The newest reading is absent exactly when no decided row carries the value, else it is the latest that does |
| SeriesStore.NewestReadingIsExact | backend/src/db.rs:3605-3623 | The newest solar wind row is the latest decided row that has a speed, and is absent exactly when no decided row has one |
| SeriesStore.NewestFieldIsExact | backend/src/db.rs:3706-3721 | The same for the newest Bz of the magnetic field |
| SeriesStore.NewestDecidedStepsBack | backend/src/db.rs:3706-3721 | Every later minute was stepped over because it has no active row or its chosen active row has no value; a secondary is never borrowed |
| FeedWriters.Execute | backend/src/db.rs:2321-2349 | The transaction loop absorbs every record in turn, or nothing when one is refused |
| FeedWriters.Store.InsertDstBatch | backend/src/db.rs:2321-2350 | The dst table becomes the old one with the batch absorbed, or is unchanged on a refusal |
| FeedWriters.Store.InsertKp3hBatch | backend/src/db.rs:2352-2380 | The same for kp_3h |
| FeedWriters.Store.InsertKpBatch | backend/src/db.rs:2069-2118 | Only records newer than everything stored are absorbed, and only their tags can refuse the batch |
| FeedWriters.Store.InsertXrayBatch | backend/src/db.rs:2166-2231 | The same for xray, on its three-part key |
| FeedWriters.Store.InsertStarlinkBatch | backend/src/db.rs:4567-4645 | Upsert, membership table and delete leave exactly the batch; an empty batch leaves the table |
| FeedWriters.MaxTag | backend/src/db.rs:2077-2086 | Being above the maximum tag is being above every stored tag |
| FeedWriters.KeepNewer | backend/src/db.rs:2083-2086 | The filter keeps exactly the records newer than everything stored, in order |
| FeedWriters.AbsorbAt | backend/src/db.rs:2092-2109 | A run of upserts, key by key, is a fold over the values offered for the key |
| FeedWriters.AbsorbAppend | backend/src/db.rs:2321-2350 | dst and kp_3h are the same however the records are cut into batches |
| FeedWriters.UpsertRunIsOneBatch | backend/src/db.rs:2321-2380 | After any run of accepted and refused batches dst and kp_3h are one batch of the accepted records |
| FeedWriters.LastWriteWins | backend/src/db.rs:2352-2380 | Each key holds the last value offered for it and nothing else changes |
| FeedWriters.UpsertThenDelete | backend/src/db.rs:4592-4634 | Upserting a batch and deleting every id outside it is replacing the table by the batch |
| FeedWriters.StarlinkIsTheLastBatch | backend/src/db.rs:4567-4645 | After any run the table is the last batch that was not empty, as a map |
| FeedWriters.StoredRowsNeverChange | backend/src/db.rs:2166-2231 | kp and xray never change a stored row, and every added row is newer than all stored ones |
| FeedWriters.ReplayIsANoOp | backend/src/db.rs:2069-2118 | Offering an absorbed batch again, in whole or in part, changes nothing |
| FeedWriters.KpColumnsSettle | backend/src/db.rs:2096-2099 | Within the batch that makes a row, each kp column settles on its own last positive value |
| FeedWriters.AnUpsertedBatchExactly | backend/src/db.rs:2321-2380 | dst, kp_3h, record by record: a tag the database cannot cast refuses the batch, else every key of it holds its last record and the other rows stay |
| FeedWriters.AKpBatchExactly | backend/src/db.rs:2077-2109 | kp, record by record: exactly which keys are added, and each column of an added row is the last positive value offered for its key, or the first where none is |
| FeedWriters.AnXrayBatchExactly | backend/src/db.rs:2176-2209 | xray, record by record: exactly which keys are added, each with its last record |
| FeedWriters.StarlinkHoldsExactly | backend/src/db.rs:4567-4645 | After any run a satellite is stored exactly when the last batch that was not empty names it, with its last record there |
| FeedWriters.ARunHoldsTheLastStored | backend/src/db.rs:2321-2380 | dst, kp_3h over any run: a key is there exactly when a batch that was not refused has it, and holds the last record of the last one |
| FeedWriters.NoNewerReadingIsLost | backend/src/db.rs:2077-2088 | Over any run of kp or x-ray batches, of a batch whose tags can be cast each reading or one with a tag at least as new is stored |
| FeedWriters.CutKeepsEveryRecordWhen | backend/src/db.rs:2077-2088 | For any table, batch, cut and merge: cutting keeps the same readings if and only if the first half stores every reading of the second that it overtakes |
| FeedWriters.CutIsExactWhen | backend/src/db.rs:2176-2188 | And the same table if and only if, besides, merging those offers would leave the stored row as it is |
| FeedWriters.SplittingAnIncrementalBatchCanLoseARecord | backend/src/db.rs:2083-2086 | Two real time tags, both cast by the database: one batch stores both readings, two batches lose the earlier |
| ForecastStore.FromPredictPayload | backend/src/db.rs:3139-3182 | Accepted exactly when every published horizon has a usable prediction; the points come in the horizons' order, scaled in rounded arithmetic with saturation, and an empty model hash reads as none |
| ForecastStore.PointExactlyWhen | backend/src/db.rs:3145-3168 | A horizon has a point exactly when the first entry that names it has a prediction; each number of the point is that entry's own, to half a stored unit |
| ForecastStore.AllOrFewer | backend/src/db.rs:3139-3173 | Counting the points found is the same test as finding every horizon |
| ForecastStore.OnlyPublishedHorizonsAreRead | backend/src/db.rs:3145-3152 | Only the first entry of each published horizon is read; extra entries and order do not matter |
| ForecastStore.EntryOrderIsIrrelevant | backend/src/db.rs:3145-3152 | With at most one entry a horizon, any rearrangement reads the same |
| ForecastStore.PublishedPointsReadBack | backend/src/db.rs:3153-3168 | A payload whose decimals are exactly stored units gives those points back, under any rounding within the double error bound |
| ForecastStore.PublishedDecimalsAreStoredClosely | ml/serve.py:375-381 | For what the service does publish, three decimals of Kp and four of spread: the stored Kp is within 0.551 hundredths of the number before any rounding, and the spread is stored exactly |
| ForecastStore.Store.InsertKpForecast | backend/src/db.rs:3194-3256 | Stored whole when the set is complete and no statement fails; otherwise the table is unchanged |
| ForecastStore.CompleteExactlyWhen | backend/src/db.rs:3201-3210 | A set of points is complete exactly when it is four points, one each for 3, 6, 12 and 24 hours |
| ForecastStore.InsertKeepsWholeIssues | backend/src/db.rs:3194-3256 | An accepted insert leaves its own issue whole and every other issue untouched |
| ForecastStore.InsertedPointsReadBack | backend/src/db.rs:3212-3240 | Each inserted point is read back under its own horizon, with the write time |
| ForecastStore.EveryReachableTableHoldsWholeIssues | backend/src/db.rs:3194-3256 | Over any run of calls each issue has exactly horizons 3, 6, 12 and 24, one model, and targets on their own lead |
| ForecastStore.StoredIssues | backend/src/db.rs:3194-3256 | After any run a forecast is there exactly when its horizon is published and some complete insert of its issue was not cut short |
| ForecastStore.ParsedPayloadsAreComplete | backend/src/poller.rs:708-724 | What the parser accepts the insert's set check accepts |
| ForecastMigrations.Database.OpenForecasts | backend/src/db.rs:1214-1233 | Purge, rekey and era fix in order, with the state each failure leaves |
| ForecastMigrations.Database.Rekey | backend/src/db.rs:1302-1396 | The row-by-row copy, its gate and the swap; a failed copy leaves the old table |
| ForecastMigrations.Database.EraFix | backend/src/db.rs:1410-1480 | Update inside a transaction, verified, committed or rolled back |
| ForecastMigrations.CopySucceedsWhen | backend/src/db.rs:1325-1355 | The copy succeeds exactly when no two rows share a write time |
| ForecastMigrations.RekeyGateNeverTrips | backend/src/db.rs:847-849 | A copy that succeeded always passes its gate |
| ForecastMigrations.OpeningMigratesOrLeavesAlone | backend/src/db.rs:1302-1480 | Distinct write times: no row lost, values kept, every target on its lead, exactly the rows from the boundary on named and called 3 h, the rest 6 h; a collision: an error and the original rows |
| ForecastMigrations.AFirstOpeningStartsAfresh | backend/src/db.rs:1214-1228 | With the purge not on record nothing stored survives an opening: the table is new and empty, the purge is recorded, and it fails exactly for an old-shape table with the rekey on record |
| ForecastMigrations.ARecordedOpeningKeepsTheTable | backend/src/db.rs:1214-1480 | With the purge and the era fix on record a new-shape table is left as it is |
| ForecastMigrations.EraFixRowByRow | backend/src/db.rs:1410-1480 | On any new-shape table: refused by a constraint exactly where two rows would meet at 3 h; otherwise each row in need is named, called 3 h, retargeted and keeps the rest, and no other row is touched or made |
| ForecastMigrations.UpdatedAt | backend/src/db.rs:1435-1443 | What the era update does to each row, named or not |
| ForecastMigrations.EraFixSucceedsWhen | backend/src/db.rs:833-835 | On any table the era fix succeeds exactly when nothing is unnamed, or no key collides and every row already named keeps its lead |
| ForecastMigrations.OpeningAgainChangesNothing | backend/src/db.rs:1214-1480 | After a successful open a second one, with any boundary, changes nothing |
| ForecastMetrics.AtMostOneCandidate | backend/src/db.rs:3317 | Observations 10800 s apart leave at most one inside the 5400 s window of any target |
| ForecastMetrics.PairingIsDetermined | backend/src/db.rs:3315-3320 | So any two answers the query may give to one target agree |
| ForecastMetrics.CloserObservationsLeaveAChoice | backend/src/db.rs:3317-3319 | With closer observations two answers are possible |
| ForecastMetrics.PairedExactlyWhen | backend/src/db.rs:3315-3320 | A target has an observation exactly when one lies less than 5400 s away, and takes the value of one with none nearer |
| ForecastMetrics.Lagrange | backend/src/db.rs:3327-3328 | Lagrange's identity for the errors |
| ForecastMetrics.MaeAtMostRmse | backend/src/db.rs:3327-3328 | In every published score the mean absolute error is at most the root mean square, and equal exactly when all errors have one size |
| ForecastMetrics.OutcomesPartition | backend/src/db.rs:3329-3331 | Storms, false alarms and quiet hits partition the pairs, and caught storms are storms |
| ForecastMetrics.CountsAreConsistent | backend/src/db.rs:3354-3383 | Published counts are consistent and the hit rate is a proportion, present exactly when there was a storm |
| ForecastMetrics.ScoredPairs | backend/src/db.rs:3310-3327 | Exactly the paired forecasts of the horizon, after the cutoff, that name a model are scored |
| ForecastMetrics.EachIsScoredOnce | backend/src/db.rs:3310-3327 | And each of them once: as many pairs as such forecasts |
| ForecastMetrics.ErrorsAreDistances | backend/src/db.rs:3327 | An error is how far the prediction is from its own observation |
| ForecastMetrics.FiguresAreOfThePairs | backend/src/db.rs:3354-3383 | Withheld below thirty pairs; else the mean distance and mean squared distance, the three counts as sizes of sets of pairs at 500 and above, and the hit rate their quotient |
| ForecastMetrics.MetricsAreDetermined | backend/src/db.rs:3310-3383 | Over a three-hourly series every published figure is a function of the tables |
| DeliveryLog.Store.InsertWebhookDelivery | backend/src/db.rs:4755-4781 | The insert and its trim, for any answer the database gives to the newest hundred |
| DeliveryLog.TopIsUnique | backend/src/db.rs:4770-4779 | Ties make the kept rows ambiguous but never their times |
| DeliveryLog.TopIsIncremental | backend/src/db.rs:4768-4779 | The newest of the newest so far and one more are the newest of everything |
| DeliveryLog.InsertKeepsNewest | backend/src/db.rs:4755-4781 | One insert keeps the top hundred times of its webhook and touches no other row |
| DeliveryLog.InsertRowByRow | backend/src/db.rs:4763-4779 | The new row is the attempt as given; below a hundred rows nothing is lost, from there on a hundred stay, and a lost row is no newer than any kept |
| DeliveryLog.RunHoldsTheNewest | backend/src/db.rs:4755-4781 | After any run each webhook holds exactly the hundred newest of all its attempt times |
| DeliveryLog.AttemptsHoldTheNewest | backend/src/db.rs:4755-4781 | The same as a run of one database, whatever decides its ties |
| DeliveryLog.NewestIsLogged | backend/src/db.rs:4755-4781 | Every attempt of a run, or one of its webhook at least as new, is in the log |
| DeliveryLog.TiesNeverShowInTheTimes | backend/src/db.rs:4770-4779 | Two runs of the same attempts agree on the times however ties fell |
| UsageRecords.Store.UpsertUsageRecord | backend/src/db.rs:4302-4333 | A zero count updates a row but never makes one |
| UsageRecords.SparseIsDense | backend/src/db.rs:4302-4349 | A reader is told the last count flushed for the period with its bounds, a missing row read as zero; a row exists exactly when some flush was not zero |
| UsageRecords.TheRowIsTheLastFlush | backend/src/db.rs:4302-4331 | A row is there exactly when some flush of the period was not zero, and it is the last flush, zero or not, with its time |
| AnomalyReads.ReadersSeeOnlyTheCallersRows | backend/src/db.rs:3439-3581 | Tables that agree on the rows the caller may see give all three readers the same answers |
| AnomalyReads.OtherAccountsRowsNeverShow | backend/src/db.rs:3439-3581 | Two tables that differ only in rows owned by other accounts, added, changed or deleted, give all three readers the same answers |
| AnomalyReads.EventsPageHoldsOnly | backend/src/db.rs:3472-3531 | Every row of a page has no owner or the caller for one, is after the cutoff and meets each filter given, newest first; the total counts exactly those rows |
| AnomalyReads.RecentHoldsOnly | backend/src/db.rs:3544-3581 | Every recent row is global or the caller's own, and labelled so |
| AnomalyReads.RecentLeavesOutOnly | backend/src/db.rs:3544-3581 | A row the caller may see is left out only behind a hundred global, or fifty own, rows at least as new |
| AnomalyReads.ReportCountsExactly | backend/src/db.rs:3912-3925 | The count is of the rows after the cutoff with no owner or the caller for one |
| AnomalyReads.CountInView | backend/src/db.rs:3912-3925 | The report count depends only on what the caller may see |
| AnomalyReads.OwnedRowsNeverStarveGlobalOnes | backend/src/db.rs:3544-3581 | For any two tables with the same global rows and any two callers, every answer on one has an answer on the other with the same global rows |
| AnomalyReads.OrderIsUnique | backend/src/db.rs:3506-3511 | Distinct times leave one order |
| AnomalyReads.PagesTileTheOrder | backend/src/db.rs:3505-3511 | Pages of one order are consecutive and cover it |
| AnomalyReads.PagingListsEverythingOnce | backend/src/db.rs:3472-3531 | With distinct times, pages 1 to ceil(total / size) list every matching row exactly once, newest first, and every page reports the same total |
| AnomalyReads.PagingIsExactUnlessATieIsSplit | backend/src/db.rs:3472-3531 | Every possible set of answers lists every row once if and only if no page boundary falls between two rows of equal time |
| AnomalyReads.TiesCanRepeatARow | backend/src/db.rs:3506-3511 | For every table with two matching rows of one time, two pages may hold the same row |
| WriterQueue.Writer.FireWrite | backend/src/db_writer.rs:166-170 | A fired write enters exactly when there is room |
| WriterQueue.Writer.StartRequest | backend/src/db_writer.rs:172-183 | A request starts by waiting, under an address of its own |
| WriterQueue.Writer.GrantRoom | backend/src/db_writer.rs:172-183 | A waiting request is given a place exactly when the channel has one free |
| WriterQueue.Writer.CancelRequest | backend/src/db_writer.rs:172-183 | A caller that goes away before its request entered gives its place back |
| WriterQueue.Writer.PushRequest | backend/src/db_writer.rs:172-183 | A request that was given room enters behind everything accepted before it; that it cannot be lost there is NoRequestIsLost |
| WriterQueue.Writer.ProcessOne | backend/src/db_writer.rs:426-695 | The command in hand is applied, and answered if it was a request |
| WriterQueue.Writer.RunUntilIdle | backend/src/db_writer.rs:420-424 | The writer's loop, left alone, is the drained state |
| WriterQueue.NextKeepsInv | backend/src/db_writer.rs:413-424 | Every step keeps the queue invariant: bounded, in order, one reply each |
| WriterQueue.EveryInterleavingIsAReplay | backend/src/db_writer.rs:413-424 | In every interleaving the store is the replay of the accepted writes processed so far, in acceptance order, and the channel never exceeds 1024 |
| WriterQueue.AnsweredExactlyOnce | backend/src/db_writer.rs:172-411 | An accepted request is answered once, when processed and not before, with the reply due after exactly the writes ahead of it |
| WriterQueue.NoRequestIsLost | backend/src/db_writer.rs:172-183 | Over every run each request asked for is, with its own command, in exactly one place: waiting, granted, accepted exactly once, or given up by a step that did so |
| WriterQueue.AGrantedRequestIsAnswered | backend/src/db_writer.rs:172-183 | From anywhere a run can reach, a waiting request that gets room and enters is answered exactly once by the idle writer, for its own command, after exactly the writes accepted before it |
| WriterQueue.AFiredWriteEntersOnce | backend/src/db_writer.rs:166-170 | A fired write enters once and last where fewer than 1024 places are taken, and no step makes up or drops another |
| WriterQueue.ReplyMeansWritten | backend/src/db_writer.rs:172-411 | When a reply is there, its own write and every earlier one are in the store |
| WriterQueue.DroppedFireLeavesNoTrace | backend/src/db_writer.rs:166-170 | A fired write changes nothing exactly when the channel is full |
| WriterQueue.DrainingFinishesEverything | backend/src/db_writer.rs:420-424 | An idle writer has processed every accepted write |
| Backend.ExpectedStep | backend/src/db_writer.rs:426-695 | Each of ten commands touches its own table only, as that table's component says |
| Backend.StoreIsExpected | backend/src/db_writer.rs:413-695 | In every interleaving each table is its component's run over its own processed writes |
| Backend.EveryInterleavingLeavesASoundStore | backend/src/db_writer.rs:413-695 | In every interleaving forecast issues are whole, usage reads as last flushed, each webhook holds its newest hundred attempt times, and dst and kp_3h hold the last accepted value of each tag |
| Backend.SeriesExactly | backend/src/db_writer.rs:426-695 | In every interleaving a minute of a spacecraft is in solar_wind, or in imf, exactly when a processed write of that table, none of whose records is refused, has a record of it |
| Backend.ValuesExactly | backend/src/db_writer.rs:426-695 | A tag is in dst, or in kp_3h, exactly when a processed write of that table has it among tags that all cast |
| Backend.UsageExactly | backend/src/db_writer.rs:426-695 | A usage period has a row exactly when a processed flush of it was not zero |
| Backend.ForecastsExactly | backend/src/db_writer.rs:426-695 | A forecast is there exactly when a processed insert of its issue was complete and not cut short |
| Backend.StarlinkExactly | backend/src/db_writer.rs:426-695 | The satellites stored are those of the last processed catalogue that was not empty |
| Backend.NothingNewestIsLost | backend/src/db_writer.rs:426-695 | Each processed kp and x-ray reading of a batch that casts, and each processed webhook attempt, is stored or is behind one at least as new |
| Backend.EveryDecidedValueWasActive | backend/src/db_writer.rs:413-695 | In every interleaving a decided solar wind or magnetic field value was measured by a record flagged active |
| Backend.StoredReadingsNeverChange | backend/src/db_writer.rs:426-695 | No step of callers or writer, in any state, changes a stored kp or x-ray reading |
| Credentials.VersionCountsChanges | backend/src/db.rs:3021-3027 | The stored version is the old one plus the number of changes made, over any run |
| Credentials.StepVersion | backend/src/db.rs:4261-4277 | A change adds one to its own account's version and no step touches another's |
| Credentials.RunKeepsBounded | backend/src/rate_limit.rs:268-294 | Nothing cached, read, minted or sent is ever ahead of the store, and a link that was used is behind it |
| Credentials.MintedSessionsAreBounded | backend/src/auth.rs:1250-1252 | A session is never minted with a version ahead of the store |
| Credentials.StaysCoherentUnless | backend/src/auth.rs:733-743 | From a coherent state, the cache stays equal to the store outside write-to-clear windows exactly unless the step caches a stale version |
| Credentials.CoherentThroughoutIff | backend/src/auth.rs:733-743 | Over a whole run the cache is right at every moment outside windows if and only if no step cached a stale version |
| Credentials.AnAnswerIsOldExactlyWhen | backend/src/rate_limit.rs:268-294 | Over every run an answer is behind the store if and only if the step that made its entry took the version from before a change (an API call's 0, or an overtaken reading), or the handler's own reading predates a change |
| Credentials.EntryIsStaleExactlyWhen | backend/src/rate_limit.rs:268-300 | Outside windows an entry differs from the store if and only if the step that made it cached a stale version |
| Credentials.CompletedChangesAreAnsweredExactlyUnless | backend/src/auth.rs:1359-1376 | Outside windows an answer is the stored version if and only if neither the entry in force was made stale nor the reading was overtaken |
| Credentials.SessionAcceptedExactlyWhen | backend/src/auth.rs:1359-1376 | A request is accepted if and only if the entry it hits was made with the session's version, or the store had that version when the handler read it |
| Credentials.MintedBeforeAChangeIsOlder | backend/src/auth.rs:1250-1252 | Every session minted before a change is behind the store after it |
| Credentials.NoSessionOutlivesAChange | backend/src/auth.rs:1359-1376 | A session minted before a completed change is refused, unless the step that made the very entry it hits cached a stale version, or the answering handler read before a change; nothing is asked of other accounts, entries or earlier steps |
| Credentials.EveryCallIsAnswered | backend/src/rate_limit.rs:268-294 | Every permitted call gets its answer: at once from the entry, else by the handler's own read and insert |
| Credentials.ACurrentSessionIsAccepted | backend/src/auth.rs:1359-1376 | A session with the stored version is accepted outside windows, unless the answer is from before a change as in NoSessionOutlivesAChange |
| Credentials.SessionsComeFromLogins | backend/src/auth.rs:1250-1252 | Every session was minted by an earlier login of its own account, with the version that login was answered with |
| Credentials.OnlyMintedSessionsAreAccepted | backend/src/auth.rs:1359-1376 | Whatever is accepted was minted by an earlier login of its account, with the version that login was answered with |
| Credentials.ACompletedChange | backend/src/auth.rs:733-743 | A change and its clear raise the version by one, drop the entry and leave no window |
| Credentials.AnApiCallCanReviveASession | backend/src/rate_limit.rs:108-117 | An API call after a change caches version 0: the old session is accepted, the new one refused |
| Credentials.ASlowReadCanReviveASession | backend/src/rate_limit.rs:273-293 | A version read before a change and inserted after it revives the old session |
| Credentials.AnOvertakenReadingRevivesASession | backend/src/rate_limit.rs:273-293 | A run in which the cache is right at every moment and a handler still accepts the old session on its own reading |
| Credentials.AnUnclearedChangeKeepsItsEntry | backend/src/auth.rs:733-743 | While a change is not cleared, no step but a drop of the entry ends it or the window |
| Credentials.AnUnclearedChangeKeepsItsSessions | backend/src/auth.rs:733-743 | So after a write without a clear the old session is accepted from the entry |
| Credentials.NoLinkOutlivesAChange | backend/src/auth.rs:254-264 | No purpose link survives a change of its account, in any interleaving |
| Credentials.ASentLinkWorksUntilAChange | backend/src/auth.rs:1119-1135 | A link sent is let through at once, and over every later run it stays so if and only if its account was not changed |
| Credentials.ACheckPassesExactly | backend/src/auth.rs:254-264 | A check lets a link through exactly when it was sent and carries the stored version |
| Credentials.LinksComeFromSends | backend/src/auth.rs:1119-1135 | Every link was sent, with the version its account had then |
| Credentials.ACheckedResetWrites | backend/src/auth.rs:1101-1104 | A reset past its check writes, is recorded, and changes the account once |
| Credentials.ALinkResetsAtMostOnce | backend/src/auth.rs:1101-1104 | In particular it does when no version moves between a check of that link and its write |
| Credentials.ALinkResetsAtMostOnceIff | backend/src/auth.rs:1101-1104 | Over every run and for every link: it resets at most once if and only if no reset with it goes ahead of a handler that holds it too and writes later |
| Credentials.AnOverlapCanBeHarmless | backend/src/auth.rs:254-264 | A reset that overlaps a password change can still be its link's only one |
| Credentials.TwoOverlappingResetsBothSucceed | backend/src/auth.rs:254-264 | Two handlers that check one link before either writes both succeed |
| Credentials.AuthState.ChangeCredentials | backend/src/auth.rs:733-743 | Write, and clear the cache when the writer replied |
| Credentials.AuthState.ResetPassword | backend/src/auth.rs:1101-1104 | Uninterrupted, a reset succeeds exactly on an acceptable link and takes the check, commit and clear steps |
| Credentials.AuthState.ExtractSession | backend/src/auth.rs:1359-1376 | Uninterrupted, a session is accepted exactly when its version is the entry's, or the store's where there is no entry |
| Credentials.AuthState.LookUp | backend/src/rate_limit.rs:268-275 | A hit answers with the entry's version |
| Credentials.AuthState.ReadVersion | backend/src/rate_limit.rs:276-285 | A miss reads the store, at a later moment of its own |
| Credentials.AuthState.InsertVersion | backend/src/rate_limit.rs:286-294 | The entry is made only if there is none by then, and the handler's own reading is returned either way |
| Credentials.AuthState.FinishExtract | backend/src/auth.rs:1359-1376 | After a miss the session is compared with the handler's own reading, in whatever state that finds the store |
| Credentials.AuthState.CheckAndIncrement | backend/src/rate_limit.rs:77-121 | The entry an API call has to make carries version 0 |
| AlertDispatch.DispatchEmailAlerts | backend/src/poller.rs:793-854 | The loop delivers to, and fires a cooldown write for, exactly the due subscriptions whose send left |
| AlertDispatch.DeliveredMeansDue | backend/src/poller.rs:817-850 | An account is reached exactly when it is outside its cooldown, a fresh reading crossed its threshold and the send left |
| AlertDispatch.DeliveredExactlyTo | backend/src/poller.rs:815-850 | One delivery for each subscription with no alert on record in the last 3600 s, a reading of the last 1800 s at or above its threshold, and a send that left; as many as there are |
| AlertDispatch.EveryLineIsBacked | backend/src/poller.rs:867-896 | Every line quotes a reading within its series' limit that reached the account's own threshold |
| AlertDispatch.LinesExactly | backend/src/poller.rs:867-896 | A line for each series with a reading of the last 1800 s at or above the account's threshold, Kp first, and no other |
| AlertDispatch.DispatchIsACycle | backend/src/poller.rs:793-854 | The loop over the listed rows delivers to exactly the due accounts whose send leaves |
| AlertDispatch.ACycleIsForExactly | backend/src/db.rs:4727-4745 | A cycle sends to exactly the enabled accounts whose row, as read then, calls for an alert |
| AlertDispatch.AnAlertStartsItsCooldown | backend/src/poller.rs:841-850 | An alert that leaves with its write accepted puts the moment the write is applied on its row, on settings saved meanwhile |
| AlertDispatch.SavingKeepsTheCooldown | backend/src/db.rs:4680-4706 | Saving settings replaces the row but for its cooldown, and no other row |
| AlertDispatch.StepKeepsSpacing | backend/src/poller.rs:841-850 | A step keeps the alerts of an account an hour apart if and only if it does not send to it within the hour of an alert that was not on file when its cycle read |
| AlertDispatch.AlertsAreAnHourApartIff | backend/src/poller.rs:793-854 | Over every run of cycles, sends, saved settings and writer steps, and for every account: its alerts are 3600 s apart or more if and only if no send to it left within the hour of an alert to it that was not on file when the cycle read |
| AlertDispatch.AlertsAreAnHourApart | backend/src/poller.rs:793-854 | In particular over any run in which every cycle that finds the account due finds its own earlier alerts on file |
| AlertDispatch.OnlyDeliveryStartsACooldown | backend/src/db.rs:4747-4753 | A cooldown moves only by an applied write of an account an alert was delivered to |
| AlertDispatch.DeliveryTakesTheRecordOffFile | backend/src/poller.rs:841-850 | From a state with every alert of an account on file, a step keeps it so if and only if it does not deliver to it, or a write was applied that same second |
| AlertDispatch.OnFileIffApplied | backend/src/db_writer.rs:635-639 | An alert off file is on file later if and only if one of its account's writes was applied meanwhile |
| AlertDispatch.AnUnrecordedAlertIsRepeated | backend/src/poller.rs:815-819 | For every account and cycle: a due cycle within the hour of an alert not on file, whose send leaves, breaks the hour |
| AlertDispatch.UnappliedWriteLeavesAlertsOffFile | backend/src/db_writer.rs:166-170 | Until its write is applied, dropped or waiting, a delivered alert is not on file |
| AlertDispatch.ALateOrDroppedWriteRepeatsTheAlert | backend/src/db_writer.rs:635-639 | Two cycles a minute apart from the start both alert, the first write dropped or accepted and late |
| JsonLiterals.NullsForNonstandardNumbers | backend/src/noaa.rs:41-105 | The byte loop, with its early return, computes the token rewrite: each word outside strings is null in it, a text without one comes back as it was, and the output is well-formed UTF-8 |
| JsonLiterals.WordsBecomeNull | backend/src/noaa.rs:79-95 | For each of NaN, Infinity and -Infinity, standing outside strings after a byte no word contains: the cleaned text is what stands before it cleaned, null, and what stands after it cleaned |
| JsonLiterals.TextWithoutWordsIsKept | backend/src/noaa.rs:79-95 | A text in which no word starts outside strings is its own cleaning, whatever its strings hold |
| JsonLiterals.CleanedInParts | backend/src/noaa.rs:54-98 | Cut outside strings after a byte no word contains, a text is cleaned part by part |
| JsonLiterals.LexIsLossless | backend/src/noaa.rs:54-98 | The pieces of a text account for every byte |
| JsonLiterals.NoWordIsRejoined | backend/src/noaa.rs:79-95 | What starts the output of an outside stretch already started the input |
| JsonLiterals.OutputLexesToNulledPieces | backend/src/noaa.rs:54-98 | The output has the input's pieces with every literal nulled, and no new one |
| JsonLiterals.CleanedTextIsSettled | backend/src/noaa.rs:41-105 | No literal is left, the strings are the input's, and cleaning again changes nothing |
| JsonLiterals.StringsAreUntouched | backend/src/noaa.rs:40-72 | Read byte by byte, the strings of the output are those of the input, in order |
| JsonLiterals.NoWordIsLeftOutside | backend/src/noaa.rs:79-95 | At no byte outside strings of the output does NaN, Infinity or -Infinity start |
| JsonLiterals.CleanedIsWellFormed | backend/src/noaa.rs:97-104 | The output is UTF-8 exactly when the input is, so the fallback is never taken |
| JsonLiterals.NothingToReplace | backend/src/noaa.rs:42-45 | The early return agrees with the scan |
| Utf8.RecogniserIsExact | backend/src/noaa.rs:97-104 | The byte recogniser accepts exactly the concatenations of well-formed scalar values |
| TleFeed.ParseTriplets | backend/src/starlink.rs:54-91 | The index loop ends and computes the reference scan of the lines |
| TleFeed.ScanRecoversTriplets | backend/src/starlink.rs:67-88 | Well-formed triplets with any junk between them come back exactly, in order, as long as names and junk do not start with 1 |
| TleFeed.ScanResumes | backend/src/starlink.rs:66-88 | After any text whatever: from a line starting with neither 1 nor 2 on, the scan continues as if nothing had stood before |
| TleFeed.SatsAreWindows | backend/src/starlink.rs:67-88 | Every satellite returned is a window of the input with its own catalog number |
| TleFeed.LongLinesNeverPanic | backend/src/starlink.rs:78-79 | Slicing is safe when every line starting with 1 has seven characters |
| TleFeed.ThreeLinesEach | backend/src/starlink.rs:60-88 | Three times the rows kept is at most the lines received |
| TleFeed.CatalogNumberReadsBack | backend/src/starlink.rs:78-79 | A five-digit catalog number reads back from its columns |
| TleFeed.BlankPaddedNumberReadsBack | backend/src/starlink.rs:78-79 | So does one whose leading zeros are blanks |
| TleFeed.OddFieldIsRefused | backend/src/starlink.rs:78-79 | A field with anything but digits, signs and blanks in it is refused |
| TleFeed.OutcomeTellsTheTruth | backend/src/poller.rs:349-373 | Rows are never reported as an empty payload; the levels say exactly empty, all lost, some lost, none lost |
| Thresholds.RoundTrip | backend/src/anomaly.rs:316-341 | A stored threshold shown and sent back is the same integer, up to 4e12 |
| Thresholds.UnitsOfEachMetric | backend/src/anomaly.rs:259-287 | The five metrics and their units, each by a value it must store |
| Thresholds.RefusedExactlyWhen | backend/src/anomaly.rs:316-333 | Which refusal a value gets: an unknown metric, then no number, then 9e18 units or more to the error of one rounding |
| Thresholds.GridDecimalsAreExact | backend/src/anomaly.rs:352-377 | A decimal on the metric's grid is stored exactly, and all operators decide as on the exact values |
| Thresholds.ExtraPrecisionIsRefused | backend/src/anomaly.rs:327-331 | A decimal a tenth of a unit or more off the grid is refused, up to 4e14 |
| Thresholds.AcceptedThresholdsDoNotMove | backend/src/anomaly.rs:316-333 | Whatever is accepted is the nearest grid point, less than a tenth of a unit away |
| ForecastTargets.TargetIsWanted | ml/train.py:331-345 | The rolled target row is what a window ending one row earlier must learn |
| ForecastTargets.RollingByTheWholeLeadIsOneLate | ml/train.py:326-330 | Rolling by the whole lead trains every head one period late |
| ForecastTargets.EveryWindowIsAligned | ml/train.py:166-177 | For every series length each window's head p is trained on kp[L+p], less kp[L] for residual heads, with no wrapped index |
| ForecastTargets.EveryHeadLearnsItsHorizon | ml/train.py:70-77 | In hours: the head published under 3, 6, 12 or 24 h learns the Kp so many hours after its window's sixteenth row, at three hours a row, and those of 3 and 6 h the change from that row |
| ForecastTargets.WalkForward | ml/train.py:346-383 | The probe never fails on long enough data; four folds with aligned samples come out exactly when the data suffices |
| ForecastTargets.NoScoredValueWasTrainedOn | ml/train.py:375-383 | No Kp row a fold is scored on was read by a training target of that fold |
| ForecastTargets.FoldsTileTheTail | ml/train.py:359-377 | The folds tile the validation tail |
| ForecastTargets.DecodeInPlace | ml/serve.py:355-367 | Scaling, and the columns the checkpoint calls residual, in place, sample by sample; a checkpoint that says nothing emits levels |
| ForecastTargets.CurrentModesAreTrained | ml/train.py:70-77 | The modes training writes are the ones its targets are built for |
| ForecastTargets.Predict | ml/serve.py:355-381 | Each head publishes the clipped mean of its decoded column to three decimals, the interval of 1.96 spreads around it, and the spread to four |
| ForecastTargets.IntervalHoldsThePrediction | ml/serve.py:375-381 | Every published interval lies within 0 and 9 and holds the published value, which is within half a thousandth of the clipped mean |
| ForecastTargets.IntervalIsAsWideAsTheSpread | ml/serve.py:375-381 | The bounds are the mean 1.96 spreads either way to half a thousandth, or the end of the scale beyond it; the spread is published to half a ten-thousandth |
| ForecastTargets.VarianceIsTheMeanSquareLessTheSquaredMean | ml/serve.py:370 | The spread is the root of the mean square less the squared mean |
| ForecastTargets.MeanOfDecoded | ml/serve.py:355-369 | The decoded mean is nine times the mean of the outputs, with the newest reading on top exactly where the checkpoint calls the head residual |
| ForecastTargets.ExactSamplesDecodeToTheFuture | ml/serve.py:355-381 | Under the modes training writes, samples equal to the training target decode to kp[L+p], published to three decimals with no spread and an interval of no width |
| MutationHarness.LfAfterCrlf | mutation-check.py:96-112 | Putting line endings in and taking them out is the identity |
| MutationHarness.CrlfAfterLf | mutation-check.py:96-112 | The other way round is the identity exactly when every LF follows a CR |
| MutationHarness.NoEditsIsTheIdentityWhen | mutation-check.py:96-113 | With no edits the view gives the file back exactly when its endings are not mixed |
| MutationHarness.ReplacesTheFirstOccurrence | mutation-check.py:99-106 | An edit replaces the first occurrence and nothing else |
| MutationHarness.EditsKeepTheFilesEnding | mutation-check.py:95-113 | A CRLF file is edited as its text with plain newlines would be and gets CRLF on every line, old or new; a file without CRLF is edited as it is |
| MutationHarness.AnchorExactly | mutation-check.py:99-105 | An edit is given up exactly where the text cannot be cut around its anchor |
| MutationHarness.OneEditIsMadeAtTheFirstCut | mutation-check.py:106 | Otherwise it is made at the first such cut and leaves both sides alone |
| MutationHarness.EditsInTurn | mutation-check.py:99-106 | A list of edits is its first part and then, on what that leaves, its second |
| MutationHarness.ApplyEdits | mutation-check.py:99-106 | The edits in turn, given up at the first missing anchor |
| MutationHarness.Workspace.RunOne | mutation-check.py:80-140 | Whatever fails, the original is in the file or, after a failed restore that says so, in the backup; the check saw exactly the edited text in the file's own endings |

## Left out

- HTTP fetching, polling loops, axum routes, mail templates, webhook sending and the frontend.
- JWT signing and expiry, bcrypt, TOTP, SHA-256 and the secret box: tokens are records nobody can forge.
- Failed database reads: `get_token_version` and `SELECT MAX` fall back to 0 and to no filter; a COMMIT that itself fails.
- Closing the writer's channel and the WriterClosed error.
- The other tables behind the writer (iss, neo, epic, apod, exoplanets, alerts, keys, webhooks): plain upserts.
- Commands the writer fires at itself while delivering webhooks, and once-only delivery, which the code does not promise.
- Retention deletes, which another connection makes.
- DuckDB row groups and the startup self-check.
- Range bucketing, whose SQL does not bucket as named.
- `rekey_one_series`, which opens no transaction.
- The rate limits and request counts of the usage counter, and its period rollover.
- A concurrent API-key cap, severity thresholds, plan ranks, e-mail and password shapes.
- Scaling of feed readings from floats to integers before they reach the store.
- The mean uncertainty figure of the metrics, and the forecast history endpoint.
- PyTorch training, Monte Carlo sampling, the early-stopping split, and `ml/preprocess.py`.
- Backend.ExpectedStep: covers ten tables; anomalies, e-mail alerts, users and the plain upserts above never meet the queue in this model, so the sessions, cooldowns and anomaly readers are proved of their own steps.
- Credentials.AuthState.CheckAndIncrement: models the version of the entry only, not its count, limit and period.
- ForecastMetrics.MaeAtMostRmse: is in exact arithmetic; the database's AVG and SQRT round.
- ForecastTargets.Predict: takes its means and roots in exact arithmetic, not in 32-bit floats.
- Thresholds.RoundTrip: holds of any rounding within 2 to the power -53 of the exact result, not of one rounding mode.
- TleFeed.ParseTriplets: takes trimmed, nonempty lines; characters are sliced, so a line that is not ASCII is not modelled.
- AnomalyReads.PagingListsEverythingOnce: the table does not change between the pages.
- AlertDispatch.AlertsAreAnHourApartIff: the clock never goes back, and a cycle reads its rows and its clock at one moment.
- SeriesStore.Store.InsertBatch: a statement fails only for a tag that cannot be cast or a missing source.
- Credentials.ASentLinkWorksUntilAChange: a link is minted at the moment its version is read.
- WriterQueue.EveryInterleavingIsAReplay: the channel's fairness is not modelled, only its order and capacity.
