# Verified models of PBGui's stateful cores

PBGui is a FastAPI front end for a trading bot. These Dafny modules model its parts with real
invariants and prove what they keep over all inputs, runs and interleavings. Loops and objects that
change state are methods and classes, each proved against a specification function; the theorems are
lemmas about those functions.

Run `dafny verify dfyconfig.toml` in this directory to check the whole project.

- **Common** holds the few definitions several components share.
- **Feed, BitgetFills, AdaptiveFills, GateFills, IncomeRescan, FundingRescan** model the paging loops that read fills
  and income from exchanges. An exchange is a sequence of events and a query that answers the oldest
  `limit` events of a closed window. Each reader gets an exact reach: it is complete (or ends) for
  every range if and only if the feed meets a condition on how many events share a window. Hyperliquid is
  sent no limit with its funding requests; that it answers up to 500 events is taken from the page size the
  repository states elsewhere (profit_sweep_exchanges.py:76-80), and the theorems hold for any such cap.
- **HistoryStore** models the incremental import: rows and a checkpoint, written together or not at all,
  and joins it to the rescanning reader.
- **Publication** models crash-safe publication of credentials. Every disk effect is a step, a crash
  can strike between any two, and a marker file has to prove what was committed. The class `Users`
  performs the effects one by one and shows that each of its calls is a run of the system.
- **ClientPool, Pruning** model the capped pool of private websocket clients as stretches of code
  between awaits, and the selection that brings the pool within new caps.
- **StatusPublisher, PriceBuffer** model the coalescing status publisher and the price write-behind
  buffer over all interleavings of their steps.
- **Positions** models the reconciliation of stored positions with reported ones.
- **ChatStream, ChatLimits, ChatEvents, ChatOutcome** model the incremental event stream reader, compare it
  with a whole-input parser, and tell when its size limits are hit, what becomes of an event and, from the
  lines alone, how the whole stream ends.
  Its grammar is a subset of section 9.2.6 (Interpreting an event stream) of the WHATWG HTML Standard.
- **MappingSchedule** models when each exchange's coin mapping is rebuilt, with exponential backoff.
- **Compaction** models which turns of a conversation a summary may replace.
- **CoinFilter** models the two filters over a coin mapping.

## Where the code differs from its documentation, or from what one would expect

- Bitget: the comment (Exchange.py:2630-2633) says an inclusive cursor avoids missing fills when more
  than a page share a millisecond. It does not: `BitgetFills.OverfullLoses` gives every such feed.
  A millisecond that fills a page exactly can also hide the rest of its window
  (`BitgetFills.ExactlyFullSkips`, concretely `BitgetFills.BurstLosesAFill`). Fewer than 100 fills per
  millisecond is enough (`BitgetFills.SparseIsUncrowded`), and `BitgetFills.CompleteIffUncrowded` is exact.
- Binance income: the loop never ends if and only if a full page of events shares one timestamp of the
  range; otherwise it collects everything (`IncomeRescan.HaltsIffSparse`).
- Hyperliquid funding: the loop compares the answer with 200 events, a number it does not send. It never
  ends from some start if and only if a window it can open holds exactly 200 events, all of one timestamp
  (`FundingRescan.HaltsIffBurstFree`, on a feed `FundingRescan.ConfiguredReadersCanRunForever`). It also leaves
  behind what does not fit an answer: it is complete from every start if and only if it always ends and no
  window it can open, doubled ones included, holds more events before its end than an answer
  (`FundingRescan.CompleteIffRoomy`). With answers of up to 500, it never collects one of 501 payments a
  millisecond apart (`FundingRescan.SteadyFundingIsLost`).
- Hyperliquid funding ids hold only the time and the coin. When one user's payments are imported after
  another's, a payment that is the first of its time and coin in its import is stored afterwards if and
  only if its very row was in the table before, or its id was not and the first user was not paid on the
  same coin at the same time (`HistoryStore.SecondPaymentStoredIff`).
- An unreadable scan checkpoint reads as none (Database.py:1196-1207), so the scan starts at the newest stored
  row without the overlap, and its success raises the checkpoint. `HistoryStore.UpdateHasNoGapIff` tells when
  that leaves no gap.
- A cluster projection compares the generation with the one it has just read, not with the one it brings
  (cluster_sync_command.py:1730-1750), so it can replace the store by other content under an equal serial.
  An editor that loaded before then saves without noticing (`Publication.ProjectionGoesUnnoticed`). At
  every moment of a run the generation check accepts only an editor whose snapshot is still in the store, if
  and only if no write of the run has put other content under a loaded serial (`Publication.AcceptsOnlyIff`).
- Positions: comments (Database.py:743, 757-758) say the latest duplicate row is kept; the code keeps the
  first one the table lists, and the model follows the code. A position reported with contracts but
  a zero contract size keeps its old row (`Positions.SizelessPositionKeepsRow`).
- A cancelled status publisher can leave pending keys without a publisher
  (`StatusPublisher.CancelledPublisherStrandsKeys`), and so can one that an exception ends, such as one of
  `json.dumps` (PBData.py:969): the model's cancellation stands for both. Over every run with cancellations,
  pending keys are served throughout if and only if no cancellation hits the publisher while keys are pending
  and no update comes while a cancelled publisher still holds the handle
  (`StatusPublisher.RunsWithCancellation`).
- A cancelled price flush can overwrite a newer price (`PriceBuffer.CancelledFlushCanRevert`). Over every run
  the newest ticks are kept throughout if and only if no abandoned write lands on a newer tick
  (`PriceBuffer.KeptIffNeverReverts`), and they are safe from a moment on if and only if no abandoned
  write is outstanding then (`PriceBuffer.SafeIffNoAbandonedWrite`).
- Mapping refresh: a failure in a regular cycle leaves no record and waits for the next interval
  (`MappingSchedule.RegularFailureWaits`). Because of the self-heal pass, a catch-up failure is always
  the first of its series.
- Compaction: a summary that covers more than 24 turns of the history it is given lets the oldest
  covered turns come back (`Compaction.CondensedIsExact`); callers trim histories below that.
- Compaction: an error of the disk while a new summary is stored is not among those the fallback handles,
  so the new memory stays although the call fails, and only then (`Compaction.FailureRestoresIff`).
- Coin filter: a ratio ceiling that is infinite or not a number is off, so lowering it to minus infinity
  approves more coins (`CoinFilter.MinusInfinityApprovesMore`, `CoinFilter.MinusInfinityApprovesOne`). Exactly
  which changes of a ceiling or a floor approve no new coin on any mapping is stated by
  `CoinFilter.CeilingShrinksIff` and `CoinFilter.FloorShrinksIff`.

## Model

| member | source | states |
|---|---|---|
| Feed.AbsorbPage | Exchange.py:2221-2279 | The loop over a page skips undated, unnamed and seen fills, keeps `seen_trade_ids` equal to the ids collected, and finds the newest timestamp. |
| Feed.AbsorbKeepsDistinct | Exchange.py:2236-2239 | No trade id is collected twice, whatever the pages hold. |
| Feed.AbsorbSlice | Exchange.py:2634-2722 | Deduplication of a page that overlaps the collected stretch extends it without gap or repeat. |
| BitgetFills.ReadPage | Exchange.py:2636-2734 | One round collects the new fills of a page and moves the cursor up. |
| BitgetFills.ScanPages | Exchange.py:2629-2734 | The cursor loop, for any span and limit: it ends, since the cursor rises every round, and never repeats a fill. |
| BitgetFills.FetchFills | Exchange.py:2567-2739 | With 90-day windows and pages of 100 an uncrowded feed comes back in order, each fill of [since, now) exactly once. |
| BitgetFills.PageKeepsPaired | Exchange.py:2635-2734 | The paired invariant: everything before the cursor is collected, nothing after it is, and a full page already known was not preceded by a fill. |
| BitgetFills.UncrowdedIsGapFree | Exchange.py:2629-2734 | From any start an uncrowded feed is returned without gap. |
| BitgetFills.OverfullLoses | Exchange.py:2630-2633 | Any millisecond with more fills than a page loses one. |
| BitgetFills.ExactlyFullSkips | Exchange.py:2724-2726 | A millisecond that fills a page exactly, after an empty one, hides every later fill of its window. |
| BitgetFills.CompleteIffUncrowded | Exchange.py:2629-2734 | The reader is complete from every start if and only if the feed is uncrowded. |
| BitgetFills.BurstLosesAFill | Exchange.py:2724-2732 | A concrete feed of 101 fills of which the configured reader loses one. |
| AdaptiveFills.AcceptPage | Exchange.py:2178-2216 | The inner loop ends and accepts the first page that is not full or has the minimum span. |
| AdaptiveFills.ScanPages | Exchange.py:2161-2288 | The OKX loop returns the specified scan and no trade id twice. |
| AdaptiveFills.FetchFills | Exchange.py:2316-2416 | Both readers: accepted windows tile [since, now), and an uncrowded feed comes back without gap or repeat. |
| AdaptiveFills.ConfiguredPlansAreValid | Exchange.py:2167-2170 | The configured spans and page sizes satisfy what the proofs assume. |
| AdaptiveFills.ScanTiles | Exchange.py:2172-2287 | Accepted windows follow each other without gap or overlap and stay within the maximum span. |
| AdaptiveFills.ChainCoversOnce | Exchange.py:2179-2287 | Every instant of the range lies in exactly one accepted window. |
| AdaptiveFills.UncrowdedIsGapFree | Exchange.py:2322-2416 | If no minimum-span window holds more than a page, every fill is collected once and in order. |
| AdaptiveFills.CompleteIffUncrowded | Exchange.py:2172-2288 | Completeness from every start holds if and only if no minimum-span window is crowded. |
| GateFills.ScanPages | Exchange.py:2446-2563 | The backward loop ends under (remaining range, span) and returns the specified scan. |
| GateFills.FetchFills | Exchange.py:2446-2565 | As configured: no fill twice, and every fill after second `since_s` exactly once when no minimum window is crowded. |
| GateFills.UncrowdedIsExact | Exchange.py:2459-2562 | The collected fills are, up to order, the feed from the first second after `since_s`, or from `since_s`, to the end. |
| GateFills.CompleteIffUncrowded | Exchange.py:2459-2562 | Completeness for every range holds if and only if no minimum window is crowded. |
| IncomeRescan.FetchEvents | Exchange.py:1267-1322 | The loop, on every feed on which it ends, returns what its first iteration past `now` leaves collected. |
| IncomeRescan.StepProgresses | Exchange.py:1292-1321 | The lexicographic measure: unless an answer of the compared length is all of one timestamp, `since` rises, or stays at an `end` that then moves away. |
| IncomeRescan.RunCollects | Exchange.py:1267-1322 | A loop that leaves no window behind with events unread returns every event of [since, now] and otherwise only later ones. |
| IncomeRescan.HaltsIffNeverStalls | Exchange.py:1292-1321 | For any cap, the loop ends from a start if and only if no answer on its way has exactly the compared length and one timestamp. |
| IncomeRescan.SkippedIsLost | Exchange.py:1301-1318 | Leaving a window behind with events of the range unread loses one of them for good. |
| IncomeRescan.CompleteIff | Exchange.py:1267-1322 | For any cap, the loop is complete from a start if and only if it never repeats such an answer and never leaves such a window. |
| IncomeRescan.ConfiguredPlansAreValid | Exchange.py:1259-1263 | The configured spans and lengths satisfy what the proofs assume. |
| IncomeRescan.StuckAt | Exchange.py:1624-1665 | When answers are capped at the compared length, as Binance's are, the cursor never passes a timestamp that fills one. |
| IncomeRescan.HaltsIffSparse | Exchange.py:1620-1668 | With that cap the loop ends if and only if no timestamp of the range carries a full page, and whatever it returns is complete. |
| FundingRescan.OpenableIsReached | Exchange.py:1308-1318 | Every window behind an empty stretch of the doubled spans is one that some start really opens. |
| FundingRescan.HaltsIffBurstFree | Exchange.py:1292-1318 | When answers are not capped at the compared length, the loop ends from every start if and only if no openable window holds exactly that many events, all of one timestamp. |
| FundingRescan.CompleteIffRoomy | Exchange.py:1267-1322 | It is complete from every start if and only if, besides, no openable window holds more events before its end than fit an answer. |
| FundingRescan.CrowdedStartLoses | Exchange.py:1301-1318 | If the first window is crowded, one event of the range is never collected at any iteration. |
| FundingRescan.SteadyFundingIsLost | Exchange.py:1269-1318 | A feed of 501 payments with distinct timestamps on which the configured reader ends and misses one. |
| FundingRescan.OneTimestampNeverEnds | Exchange.py:1292-1300 | A feed of exactly the compared number of events at one timestamp keeps the loop running forever. |
| FundingRescan.ConfiguredReadersCanRunForever | Exchange.py:1292-1300 | Both configured readers can: on 1000 and on 200 events of one millisecond. |
| HistoryStore.HistoryTable.UpdateHistory | Database.py:370-411 | After a fetch the checkpoint is the start of the scan, and a row is stored if and only if it was there or its unique id was new and it came first; after a failed fetch or write nothing changes. The rollback is SQLite's and is taken as given. |
| HistoryStore.StoredIffFirst | Database.py:399-403 | A row is stored if and only if it was there, or its unique id was not and it is the first row of the batch with that id. |
| HistoryStore.LastTimestampIsNewest | Database.py:1862-1872 | The first scan starts at the newest of the user's own timestamps, or at 0 without any. |
| HistoryStore.InsertIds | Database.py:399-403 | The ids after an import are the old ones and those of the batch. |
| HistoryStore.InsertKeepsUnique | Database.py:213-220 | Unique ids stay unique. |
| HistoryStore.UpdateHasNoGapIff | Database.py:1196-1252 | After a full fetch, the checkpoint readable or not, the table has no gap if and only if nothing older than the scan start was missing. |
| HistoryStore.OverlapMissesNothing | Database.py:1234-1236 | Behind a checkpoint that is read the six-hour overlap misses nothing. |
| HistoryStore.UpdateKeepsInv | Database.py:380-409 | One update of any account keeps every account free of gaps up to its checkpoint. |
| HistoryStore.CheckpointIsLastSuccess | Database.py:402-409 | After any run an account's checkpoint is the start of its last successful update in the list, or what it was without any. |
| HistoryStore.NoGapOverRuns | Database.py:370-411 | The same over any run of successful and failed updates, given that a successful fetch is full: an account has no gap at the start of its last success, and its next scan starts six hours before it and misses nothing older. |
| HistoryStore.ReaderIsFull | Exchange.py:1620-1668 | The rescanning reader delivers such a full fetch of any feed that lists the user's visible events, from any start up to the scan's; Hyperliquid's where it skips nothing. |
| HistoryStore.NoGapThroughReader | Database.py:380-409 | Over any run of updates through the reader, failed ones included, every account is complete up to its checkpoint, the start of its last success. |
| HistoryStore.SecondPaymentStoredIff | Exchange.py:1323-1329 | A second user's payment, the first of its time and coin in its import, is stored afterwards if and only if its very row was there, or its id was not in the table and the first user has no payment of that time and coin. |
| HistoryStore.SameFundingIdIff | Exchange.py:1328 | Two payments share an id if and only if they share time and coin. |
| HistoryStore.SharedFundingIdDropsARow | Exchange.py:1328 | The smallest case: one payment of two users, of which the second row is dropped. |
| HistoryStore.RescanStoredOnce | Exchange.py:1620-1681 | The overlapping pages of a rescan that skips nothing leave exactly one row per event of the range. |
| Publication.Users.Save | User.py:433-471 | Outcome, store, cluster, marker and generation of a save for every combination of effects that work, raise or die: rejected exactly for a stale generation, saved exactly if all four work, failed exactly if the marker or the store write raises, pending exactly if publishing or clearing does. It is a run of the system. |
| Publication.Users.Load | User.py:375 | Loading takes the generation of the store. |
| Publication.Users.WriteSaved | User.py:440-464 | The marker, the store and the exception handler of both, for every combination of what befalls them. |
| Publication.Users.Announce | User.py:440-449 | The marker is written whole or not at all, before the store; the call goes on exactly if it worked. |
| Publication.Users.Replace | User.py:450-454 | The store holds the new snapshot if the effect took place and else the old one; the call goes on exactly if it worked. |
| Publication.Users.Recover | User.py:455-464 | A failed write brings the earlier marker back exactly when the store is as it was. |
| Publication.Users.Append | User.py:465-508 | The cluster operation is there if the effect took place, and the editor's generation rises even if the append fails. |
| Publication.Users.Clear | User.py:59-71 | The marker is gone if the effect took place, which comes only after publication. |
| Publication.StepKeepsInv | User.py:80-100 | Every step, a crash included, keeps the evidence of the marker true. |
| Publication.PublicationIsCrashSafe | User.py:45-72 | In every run, unpublished credentials have a marker that proves them committed, and no reachable marker conflicts with the store. |
| Publication.UndisturbedSaveLands | User.py:433-471 | From every reachable moment an editor that loads and saves undisturbed has its content stored under the next serial, published and unmarked. |
| Publication.RetryConverges | cluster_sync_command.py:1678-1702 | From every reachable moment an undisturbed retry publishes what is unpublished and removes the marker. |
| Publication.FailedWriteRestoresMarker | User.py:455-461 | A write that fails before taking effect leaves the whole state as before. |
| Publication.NoLostUpdate | User.py:433-436 | Over any interleaving of editors without a projection each commit starts from the previous one's snapshot and raises the serial its editor had loaded by exactly one. |
| Publication.WritesAreLinked | User.py:433-454 | Over every run, projections included, each save replaces exactly the snapshot it read, and the store holds the last write. |
| Publication.AcceptsOnlyIff | User.py:433-436 | Through any run the generation an editor loaded is accepted only on the snapshot it loaded, if and only if no write of the run puts other content under that serial. |
| Publication.AcceptedReplacesLoaded | User.py:433-454 | In such a run a save that passes the generation check replaces exactly the snapshot its editor loaded. |
| Publication.WithoutProjectionLoadsHold | User.py:433-436 | From a load on, as long as only saves write, the loaded generation is accepted only on what was loaded. |
| Publication.ProjectionGoesUnnoticed | cluster_sync_command.py:1730-1750 | A projection of other content under an equal serial, after which an editor's save is accepted all the same. |
| StatusPublisher.Publisher.UpdateStatus | PBData.py:942-956 | The key has the new value and a new generation, and a publisher is started exactly when none is running. |
| StatusPublisher.Publisher.TakeSnapshot | PBData.py:964-969 | The task remembers exactly the pending generations with their current values. |
| StatusPublisher.Publisher.AcknowledgeSent | PBData.py:971-978 | Only generations that did not change meanwhile are dropped, and the publisher leaves when none is left. |
| StatusPublisher.Publisher.Finish | PBData.py:979-982 | The final cleanup releases only its own handle. |
| StatusPublisher.StepKeepsInv | PBData.py:942-982 | Every step but a cancellation keeps a live publisher behind pending keys. |
| StatusPublisher.StatusIsLastValue | PBData.py:942-951 | Over any run, cancellations included, the status of a key is the value of its last update. |
| StatusPublisher.NothingIsLost | PBData.py:942-982 | In every interleaving at most one publisher is live, pending keys have one, and every other key was last handed over with the value of its last update in the list of actions. |
| StatusPublisher.RoundSettlesAll | PBData.py:962-978 | After any run one undisturbed round leaves nothing pending and the API with exactly the last value of every key. |
| StatusPublisher.StepServesIff | PBData.py:942-982 | Any step, cancellation included, keeps pending keys served unless it cancels the publisher while keys are pending or updates under an unfinished cancelled one. |
| StatusPublisher.RunsWithCancellation | PBData.py:942-982 | Over every run that is the exact condition for serving pending keys throughout; one publisher, and last values handed over for all other keys, hold in any case. |
| StatusPublisher.CancelStrandsIffPending | PBData.py:979-982 | After any run that serves its keys, a cancellation strands some if and only if it hits the publisher while keys are pending. |
| StatusPublisher.StaysServedIff | PBData.py:955-982 | After any run, keys stay served whatever follows without cancellation if and only if a handle, or a pending key, comes with a live publisher. |
| StatusPublisher.UpdateRevivesIffTaskGone | PBData.py:955-956 | The state right after an update is sound again, until the next cancellation, if and only if the cancelled task is gone or a publisher lives. |
| StatusPublisher.CancelledPublisherStrandsKeys | PBData.py:979-982 | A run in which a cancelled publisher strands a key. |
| PriceBuffer.UpsertAsMap | Database.py:1121-1123 | The update-or-insert is a map update, on tables with duplicates too. |
| PriceBuffer.UpsertKeepsOneRow | Database.py:1121-1123 | It keeps one row per key. |
| PriceBuffer.PriceWriter.BatchUpsert | Database.py:1105-1135 | The batch is written whole or not at all, and keeps one row per key; the rollback is SQLite's and is taken as given. |
| PriceBuffer.PriceWriter.BufferPrice | PBData.py:2642-2660 | A tick replaces the buffered one of its key. |
| PriceBuffer.PriceWriter.TakeBuffer | PBData.py:2692-2709 | A flush takes the whole buffer and leaves it empty. |
| PriceBuffer.PriceWriter.WriteTaken | PBData.py:2710-2722 | A flush writes its snapshot, or merges it back under newer ticks. |
| PriceBuffer.PriceWriter.MergeBack | PBData.py:2713-2721 | A failed tick never replaces one buffered meanwhile. |
| PriceBuffer.NoTickIsLost | PBData.py:2642-2722 | In every interleaving the last tick of a key in the list of actions is in the buffer, else in flight, else in the database. |
| PriceBuffer.QuietMeansStored | PBData.py:2692-2722 | When nothing is buffered or in flight, the database has the last tick of each key, and of a key without ticks what it had before. |
| PriceBuffer.FlushStoresAll | PBData.py:2692-2722 | After any uncancelled run one undisturbed flush brings that about. |
| PriceBuffer.CancelledFlushCanRevert | PBData.py:2710-2722 | After a cancelled flush the property can fail, for any two different ticks of a key. |
| PriceBuffer.StepKeepsNewestIff | PBData.py:2642-2722 | Any step, cancellation included, keeps the newest ticks unless an abandoned write lands on a newer tick. |
| PriceBuffer.KeptIffNeverReverts | PBData.py:2642-2722 | Over every run that is the exact condition for keeping them throughout. |
| PriceBuffer.SafeIffNoAbandonedWrite | PBData.py:2692-2722 | After any run the newest ticks are safe from then on, short of another cancellation, if and only if they are kept and no abandoned write is outstanding. |
| ClientPool.Exchange.CheckAndReserve | Exchange.py:661-756 | Under the creation lock a client is shared if it exists, refused if a cap is reached or the client is not supported, and otherwise reserved; each with the whole new state. |
| ClientPool.Exchange.CompleteCreation | Exchange.py:771-779 | The client is stored with the creation's owner as its only one and its marker dropped in one stretch; every other key keeps its owners. |
| ClientPool.Exchange.AbortCreation | Exchange.py:774-779 | A failed creation only drops its marker. |
| ClientPool.Exchange.ReleaseClient | Exchange.py:889-910 | The result is true exactly when a client was closed, which is when its last owner left; otherwise only that owner goes. |
| ClientPool.Exchange.TryExisting | Exchange.py:646-650 | An existing client gets one more owner. |
| ClientPool.StepKeepsInv | Exchange.py:630-779 | Every stretch between awaits keeps ownership, serialization and caps. |
| ClientPool.PoolIsSafe | Exchange.py:630-779 | In every interleaving clients and in-flight creations respect both caps, an exchange has one creation in flight, and exactly the clients have owners. |
| ClientPool.OwnedIffGained | Exchange.py:630-779 | After any run an owner has a client if and only if it shared the client or completed its creation at some step, and has neither released it nor seen it removed since. |
| ClientPool.CreatingIffOpened | Exchange.py:661-779 | After any run a creation is in flight if and only if a reservation opened it under both caps and it has neither completed nor failed since. |
| ClientPool.ClientsAreGained | Exchange.py:630-779 | The clients after any run are exactly those with such an owner. |
| ClientPool.ReleaseClosesIffLastOwner | Exchange.py:896-903 | A release closes a client if and only if the caller is its last owner, and touches no other. |
| ClientPool.AcquireReleaseRoundTrip | Exchange.py:646-650 | Acquiring and releasing leaves everyone else's ownership as it was. |
| Pruning.GroupByExchange | Exchange.py:796-800 | The key lists per exchange, in dictionary order. |
| Pruning.SelectForClosing | Exchange.py:802-826 | The selection in two passes closes a client exactly if more clients of its exchange than the cap are at its place or behind it, or, of the others, more than the global cap are. |
| Pruning.SelectionIsExact | Exchange.py:802-826 | The selected keys are distinct clients, and their number is the sum of the excesses per exchange plus the global excess left. |
| Pruning.ClosedIff | Exchange.py:802-826 | Exactly which clients are closed: the oldest of each exchange over its cap, then the oldest of the rest. |
| Pruning.PruningMeetsCaps | Exchange.py:782-851 | Closing them brings every capped exchange and the total within the caps. |
| Pruning.NothingToPrune | Exchange.py:815-822 | Nothing is closed when the caps already hold. |
| Pruning.PruningPassEstablishesCaps | Exchange.py:828-833 | A pass over a quiet pool establishes the new caps, whatever the old ones were. |
| Positions.FindDuplicates | Database.py:734-747 | The scan splits the rows into the first of each key and the ids of the later ones. |
| Positions.LiveKeysOf | Database.py:725-732 | The live keys are those reported with contracts. |
| Positions.PositionTable.UpdatePositions | Database.py:714-797 | The whole update equals its specification. |
| Positions.DeletionIsExact | Database.py:1010-1015 | A deletion by id removes the one row with it, if any, and keeps all others. |
| Positions.CleanedKey | Database.py:757-767 | After the deletions a live key keeps exactly its first row and any other key none. |
| Positions.PutAllKey | Database.py:769-797 | Positions of one key leave one row with the last open one's data, with the old id if there was a row. |
| Positions.ReconciledIsExact | Database.py:725-797 | For any rows and any report: per key exactly the last open position, nobody else's rows change, ids stay unique. |
| Positions.LastPositionIsStored | Database.py:770-797 | The last open position reported for a key becomes its only row, field by field. |
| Positions.SizelessPositionKeepsRow | Database.py:725-732 | A key reported with contracts but without a size keeps its first row as it was. |
| Positions.ClosedPositionIsRemoved | Database.py:763-767 | A key without reported contracts loses all its rows. |
| Positions.RepeatingChangesNothing | Database.py:714-797 | Reconciling again with the same report changes nothing. |
| ChatEvents.LineEffect | ai_chat_stream.py:31-67 | Collected data stays within the limit while the reader goes on, callbacks are only added, and only a blank line after data touches the accumulator. |
| ChatEvents.LinesRoundTrip | ai_chat_stream.py:30-31 | Splitting undoes writing lines out. |
| ChatEvents.StripCRIsExact | ai_chat_stream.py:33 | All carriage returns at the end of a line go, and nothing else. |
| ChatEvents.StripLeftIsExact | ai_chat_stream.py:37 | All spaces in front of a payload go, and nothing else. |
| ChatEvents.JoinIsExact | ai_chat_stream.py:41 | Joining puts every payload line at its place, one line feed apart. |
| ChatEvents.EventRoundTrip | ai_chat_stream.py:30-61 | An event written as data lines and a blank line is accepted or refused exactly once, joined, in any chunks that hit no limit; [DONE] ends the stream, in success only after a finish reason. |
| ChatStream.DrainBuffer | ai_chat_stream.py:30-67 | The inner loop takes complete lines off the buffer until none is left or the reader has stopped. |
| ChatStream.ReadChunks | ai_chat_stream.py:21-67 | The loop over the chunks equals the incremental reading. |
| ChatOutcome.ReadChatStream | ai_chat_stream.py:21-73 | Unless a chunk is too large, the response is complete if and only if a line ends a [DONE] event after a finish reason and nothing failed before, with what was accumulated up to there; an early end, invalid text, a large event, a refused one and a size limit each give an error of their own. |
| ChatOutcome.OutcomeIsTold | ai_chat_stream.py:30-73 | The parser ends as the lines tell: data lines collected since the last blank one, events joined and fed in order, the first line that fails or completes. |
| ChatOutcome.OneLastRead | ai_chat_stream.py:22-67 | Either every line lets the reader go on or exactly one is the last one read. |
| ChatOutcome.QuietFold | ai_chat_stream.py:30-67 | Behind lines that let it go on, the reader stands with exactly the lines collected, the accumulator fed and the callbacks fired. |
| ChatStream.DrainIsFold | ai_chat_stream.py:30-31 | Cutting lines off the buffer agrees with reading the input byte by byte. |
| ChatStream.ReadIsReference | ai_chat_stream.py:21-67 | The incremental reader agrees with the whole-input parser. |
| ChatStream.ChunkingIndependence | ai_chat_stream.py:21-67 | Two splits of the same bytes give the same events, callbacks and end. |
| ChatLimits.NoLimitHit | ai_chat_stream.py:28-29 | If the longest line and the largest chunk fit the buffer together, no limit is hit. |
| ChatLimits.EverySplitParsesIff | ai_chat_stream.py:28-29 | No split into pieces of at most a given size hits a limit if and only if no position has an unfinished line that the next piece overflows while more is wanted. |
| ChatLimits.LimitHitIff | ai_chat_stream.py:24-29 | A given split hits a limit if and only if some chunk exceeds the total, or the buffer with the line begun, while more is wanted; the reading then stands where the first one found it. |
| ChatLimits.LinesAndRest | ai_chat_stream.py:30-31 | The complete lines and the line begun are the whole input. |
| ChatLimits.OneLargeChunkIsRefused | ai_chat_stream.py:28-29 | The limit itself depends on the chunks. |
| ChatStream.StoppedIgnoresRest | ai_chat_stream.py:22 | After [DONE] or an error nothing more is read. |
| MappingSchedule.MappingScheduler.SelfHeal | PBCoinData.py:2928-2957 | The pass attempts exactly the exchanges that are stale or failed before and not waiting. |
| MappingSchedule.MappingScheduler.ChooseCycle | PBCoinData.py:2959-2976 | The exchanges of a regular or catch-up cycle. |
| MappingSchedule.MappingScheduler.RunCycle | PBCoinData.py:2982-3010 | The cycle tries those not refreshed and not waiting, and records failures only in a catch-up. |
| MappingSchedule.MappingScheduler.UpdateMappings | PBCoinData.py:2899-3012 | For each exchange: whether a call heals it, tries it in the cycle or leaves it alone, and what record and refresh time it has afterwards; a success clears the record, a failure counts and doubles the wait. |
| MappingSchedule.StepAccounts | PBCoinData.py:2913-3012 | The step that the theorems over runs speak of does exactly that. |
| MappingSchedule.SelectedIff | PBCoinData.py:2901-2903 | All supported exchanges are selected, or those asked for if each of them is supported. |
| MappingSchedule.AttemptedOnce | PBCoinData.py:2929-2994 | No exchange is attempted twice in a call, none before its retry time. |
| MappingSchedule.TurnIff | PBCoinData.py:2984-2988 | After the self-heal pass only exchanges that had no failure record and nothing to heal get a turn. |
| MappingSchedule.RecordTellsHistory | PBCoinData.py:2913-2921 | Over any run a failure record counts the failures since the last success and tells when the last one was. |
| MappingSchedule.FailuresBackOff | PBCoinData.py:2913-2921 | In every run n failures in a row span at least the sum of their waits. |
| MappingSchedule.BackoffDoubles | PBCoinData.py:2917 | The first wait is an hour, and each further one twice the one before, up to a day. |
| MappingSchedule.WaitInClosedForm | PBCoinData.py:2917 | That sum is 31 hours for six failures and a day more for each further one. |
| MappingSchedule.RegularFailureWaits | PBCoinData.py:2990-3012 | A failure in a regular cycle leaves no record; until an interval has passed the exchange is tried again only if stale or asked for. |
| Compaction.Conversation.FindCut | ai_deepseek_context.py:109-111 | The loop that moves the cut to a user turn. |
| Compaction.Conversation.Condense | ai_deepseek_context.py:96-147 | Memory changes only after a usable answer. |
| Compaction.Conversation.Prepare | ai_deepseek_context.py:57-81 | A declined summary or store restores the memory, postpones the next attempt by 300 seconds and sends the intact history exactly if it fits and can be stored; other errors escape, and one of the disk after the memory has changed. |
| Compaction.DueIff | ai_deepseek_context.py:101-107 | A conversation is due from 18 turns, from three fifths of the context or 128000 characters, or from seven tenths of the context used. |
| Compaction.HeavyUseSummarises | ai_deepseek_context.py:33-49 | A report of that much use brings the next call to summarise. |
| Compaction.DeclinedWaits | ai_deepseek_context.py:68-80 | After a declined call later ones send the history as it is until five minutes have passed, and from then on summarise again if due. |
| Compaction.SizeOfProjection | ai_deepseek_context.py:71-73 | What is sent has the size of the heading, the summary and the uncovered turns. |
| Compaction.FailureRestoresIff | ai_deepseek_context.py:62-77 | A failing call leaves the memory as it was if and only if it is not the disk that fails on a usable summary. |
| Compaction.CutIsExact | ai_deepseek_context.py:109-111 | At least two turns are condensed, one to six remain, no user turn is passed over. |
| Compaction.CondensedIsExact | ai_deepseek_context.py:136-139 | Exactly the condensed turns are left out, if and only if at most 24 turns of the history are covered. |
| Compaction.SuccessIsExact | ai_deepseek_context.py:136-147 | A success sends the summary and the newest turns, and nothing else is left out. |
| Compaction.NewestSurvives | ai_deepseek_context.py:84-93 | Whatever happens, a newest turn that no summary covers is the last one sent. |
| Compaction.NewTurnSurvivesRuns | ai_deepseek_context.py:84-93 | In every run a call whose last turn no earlier call has seen sends that turn last. |
| Compaction.FilterKeepsOrder | ai_deepseek_context.py:86-88 | The turns sent keep their order. |
| Compaction.FewerIdsShowMore | ai_deepseek_context.py:137 | Covering fewer ids only puts turns back. |
| Compaction.RestoreCoversNoMore | ai_deepseek_context.py:20-30 | Restoring never covers an id that was not covered. |
| Compaction.StoreThenRestart | ai_deepseek_context.py:20-30 | Storing and restarting gives back the same summary and projections, in every run with generated ids. |
| Compaction.ResetShowsAll | ai_chat.py:2469 | A reset sends every turn again, as it is. |
| Compaction.MissingTurnsWereSummarised | ai_deepseek_context.py:57-147 | Over all runs a turn missing from the projection went into the current summary through some call with a usable answer. |
| CoinFilter.FilterMapping | PBCoinData.py:877-959 | Approved and ignored coins partition the coins in scope; a coin with one passing record is approved. |
| CoinFilter.FilterMappingRows | PBCoinData.py:983-1057 | One row per passing record, in mapping order. |
| CoinFilter.RowsAreInOrder | PBCoinData.py:1010-1057 | The rows show the passing records at increasing places, all of them, with their coin, cap, volume and ratio. |
| CoinFilter.OffApprovesAll | PBCoinData.py:917-930 | With every setting off all coins of a listed quote are approved. |
| CoinFilter.SwitchesAreExact | PBCoinData.py:948-950 | Ignoring notices, copy trading only and tags each keep exactly the coins of a record approved without the setting that meets it. |
| CoinFilter.ActiveFilterIsExact | PBCoinData.py:859-876 | The active filter keeps those of an active linear swap, with its two special exchanges. |
| CoinFilter.FloorIsExact | PBCoinData.py:940-943 | A cap floor keeps those of a record listed with a finite cap that reaches it. |
| CoinFilter.CeilingIsExact | PBCoinData.py:944-947 | A ratio ceiling below ten keeps those of a record whose volume over its positive cap is below it. |
| CoinFilter.FiltersAgree | PBCoinData.py:938-958 | The rows show exactly the approved coins. |
| CoinFilter.FloorIsStricterIff | PBCoinData.py:909-911 | When one cap floor is at least as strict as another for every market cap. |
| CoinFilter.CeilingIsStricterIff | PBCoinData.py:910-912 | When one ratio ceiling is at least as strict as another for every ratio. |
| CoinFilter.FloorShrinksIff | PBCoinData.py:909-950 | Replacing a cap floor approves no new coin on any mapping, whatever the other settings, if and only if it is raised or the old one was off. |
| CoinFilter.CeilingShrinksIff | PBCoinData.py:909-950 | The same for lowering a ratio ceiling. |
| CoinFilter.MinusInfinityApprovesMore | PBCoinData.py:912 | Which coins a ceiling of minus infinity adds on any mapping. |
| CoinFilter.MinusInfinityApprovesOne | PBCoinData.py:912 | A mapping on which it approves a coin that was rejected. |
| CoinFilter.TighteningShrinks | PBCoinData.py:938-950 | Raising the floor and lowering the ceiling only shrinks the approved coins and keeps the scope. |

## Left out

- IncomeRescan.FetchEvents: requires that the loop ends, since it returns nothing otherwise; `IncomeRescan.HaltsIffNeverStalls` tells exactly when it does.
- Publication.NoLostUpdate: does not span runs in which the cluster projects its own snapshot into the store; `Publication.WritesAreLinked` and `Publication.AcceptsOnlyIff` span those.
- Publication.RetryConverges: speaks of a retry that nothing disturbs; a failed retry is a step of the runs in `Publication.PublicationIsCrashSafe`.
- StatusPublisher.NothingIsLost: does not span cancellation; `StatusPublisher.RunsWithCancellation` is the exact statement for those runs. A value handed over is not always delivered, because a failed request is swallowed.
- PriceBuffer.NoTickIsLost: does not span cancellation of a flush; `PriceBuffer.KeptIffNeverReverts` is the exact statement for those runs. That flushes never overlap is an assumption: at shutdown a final flush is started while the writer task may have one in flight (PBData.py:4534).
- HistoryStore.NoGapOverRuns: takes full fetches as given; for the rescanning reader `HistoryStore.NoGapThroughReader` derives them.
- HistoryStore.NoGapThroughReader: assumes that the feed does not change while it is read and that an account's first scan missed nothing older; the same is assumed of a scan whose checkpoint cannot be read. It speaks of the rescanning reader started no later than the scan and skipping nothing; the default start a year back is not modelled.
- Positions.PositionTable.UpdatePositions: does not model that each statement commits on its own and that a failed one is logged and skipped.
- Compaction.MissingTurnsWereSummarised: trusts the model's answer; that a summary is faithful is out of reach.
- Retries, rate limits, sleeps and request errors of the paging loops; an error that is swallowed for one symbol leaves that symbol incomplete.
- That an exchange answers oldest-first and that windows are closed is assumed, not proved; fills carry only an id and a timestamp.
- The lookback clamps and default start times of the readers; the scans start from any `since`.
- Hashes are injective and file replacement is atomic; file permissions, symlinks, backups and the check that a marker is well-formed JSON are not modelled.
- The restore of a backup writes the credential store without a marker (api/api_keys.py:1181-1237), so the publication invariant does not span it.
- Closing all websocket clients at once and the request manager that returns clients without recording an owner; asyncio locks are modelled by which stretches may interleave.
- Order reconciliation, balances and executions in the database; symbol names are taken as already normalised.
- UTF-8 decoding, JSON and the accumulator of the stream reader are function parameters; the list of chunks ends where the stream answers an empty one.
- In the mapping schedule, which sources are newer, file ages and refresh outcomes are parameters of a call; what a refresh does is not modelled.
- Images, token accounting and request assembly of the compaction, and rounding in its thresholds; a message without an id is modelled by the empty id.
- The order of filtered rows, the symbol-to-coin heuristics and rounding of ratios; upper-casing is that of ASCII letters.
