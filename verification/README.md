# Erebor in Dafny

Erebor ingests Binance depth feeds into in-memory order books, persists them, replays them for backtests, and
trades them on paper. This project models its two hard cores and proves what they promise.

**Order books.** One handler per symbol merges an ordered but lossy diff stream with depth-limited snapshots that
are fetched concurrently. Every locked section is one atomic step of a transition system (`SyncProtocol.dfy`)
whose environment chooses the interleaving and the outcome of every call that can fail. `SymbolHandler.dfy` is the
handler itself, field by field, proved equal to those steps; `OrderBook.dfy` is the book. The exchange is a
*timeline*: its own book after every update id (`Feed.dfy`). The theorems in `SyncSafety.dfy` and
`BootstrapProgress.dfy` are about runs of any length, `Publication.dfy` about every book published on the way;
`HandlerSteps.dfy` says of each kind of step what it does and when.
`Truncation.dfy` says what a snapshot cut at its depth limit leaves open, `Rewinding.dfy` what diffs older than the
snapshot can spoil. `Replay.dfy` is the replay engine with its reseeds, and `EndToEnd.dfy` goes from a live run
through its checkpoint to the replayed book, across resyncs as well.

**Trading.** `RiskChecker.dfy`, `Blotter.dfy` and `Collector.dfy` are the three ledgers, `Trading.dfy` the backtest
executor and the live handler. `RiskConcurrency.dfy` lets concurrent loops share one checker without atomicity
between check and fill; `Ledgers.dfy` relates the ledgers, `Bisimulation.dfy` the two execution paths,
`Recovery.dfy` resumes a session. `Streams.dfy` and `Pipeline.dfy` are the read-then-drain loops and the shutdown
order of a run; `Metrics.dfy` the FIFO profit and drawdown figures, `Pairing.dfy` which trades they pair.

Decimals are reals and update ids are unbounded integers. A call into Redis, Postgres, HTTP or the clock is an
input of the step that makes it (`Env`, `ReplayEnv`, `Probe`, `Poll`, `Range`, the flag `stored`), chosen freely
by the environment unless a theorem says otherwise.

Where the code does less than its documentation or comments suggest, the model follows the code:

- A gap among the diffs buffered during bootstrap only logs a warning (engine/symbol/handler.go:308-313), although
  ADR-001 says a corrupted book must never be used. `TrustIffNotWarned` proves that this warning is exactly the
  test for a trustworthy book on an honest, ordered feed; `WarnedBookIsWrong` is such a run.
- The handler publishes and checkpoints as many levels as it fetched (engine/symbol/handler.go:187, 365-388), although
  fewer of them may be left. `PublishedTrustIff` and `CheckpointTrustIff` say exactly when that is still certain.
- A reseed after a replay gap takes the latest checkpoint before the gap's end without comparing ids, and every diff
  after it is published at once (engine/backtest/replay/engine.go:208-262). `ReseedTrustIff` proves that two
  comparisons are missing, and that they are exactly the condition for a right book: the checkpoint is not older than
  the first diff after the gap, and the diffs have caught up with it. `ReplayTrustIff` is the general case.
- A closing fill larger than the position zeroes the average entry (engine/execution/blotter/blotter.go:185-201);
  `BalanceKeptIff` says exactly when the books still balance.
- A refused fill is rolled back except for the average entry (engine/execution/blotter/blotter.go:226-238);
  `RollbackIff` says exactly when the position is nevertheless as before, and `RecoveryRestores` what a later
  session gets back from the store.
- Recovery feeds the risk checker a buy for short positions too
  (engine/execution/cmd/erebor-execution/main.go:126-131); `RecoveryAgreesIff` says exactly when the ledgers agree.
- The risk specification calls equity initial capital plus realised profit; the code keeps a cash balance
  (engine/risk/checker.go:295-302). `BlotterOverChecker` gives the difference: the cost of the open positions.
- The executor crosses the event's own best price, the live handler the one in its cache
  (engine/backtest/execution/executor.go:292-303, engine/execution/l2cache/cache.go:138-167). `StepAgreesIff` and
  `LiveMatchesBacktest` say exactly when the two paths nevertheless publish the same.
- The single-pass drawdown misses drops to values below zero and series that start at zero
  (engine/backtest/metrics/computer.go:77-112). `ReportedIsMaxIff` says exactly when the reported figure is the largest
  drop.
- A snapshot fetch that fails leaves the stale mark in place, so that the retry's snapshot is discarded as well
  (engine/symbol/handler.go:190-203); `OverflowDiscardsFetch` states this.

## Model

| member | source | states |
|---|---|---|
| OrderBook.Book.Apply | engine/book/book.go:35-56 | a diff is folded level by level into both sides, a zero quantity deletes, the id becomes the diff's final id, and no zero quantity is ever stored |
| OrderBook.Book.LoadSnapshot | engine/book/book.go:109-125 | both sides are replaced by the snapshot's non-zero levels and the id by the snapshot's |
| OrderBook.Book.Snapshot | engine/book/book.go:58-72 | the result is the book's id with the reference listing of each side, whatever order the map is met in |
| OrderBook.TakeLevels | engine/book/book.go:74-93 | gathering a map in arbitrary order, sorting and cutting yields the recursively defined best-first listing |
| OrderBook.SnapshotIsBest | engine/book/book.go:74-93 | a snapshot of depth d is strictly price-ordered, has min(d, n) levels of the side, and leaves out no level better than a listed one |
| OrderBook.SnapshotPrefix | engine/book/book.go:89-91 | a shallower snapshot is a prefix of every deeper one |
| OrderBook.SnapshotRoundTrip | engine/book/book.go:109-125 | loading a full snapshot of a book restores both sides |
| OrderBook.TruncatedRoundTrip | engine/book/book.go:109-125 | loading a snapshot cut at depth d agrees with the original on all prices not worse than the last level, holds nothing else, and snapshots to the same levels again |
| Levels.ApplyTruth | engine/book/book.go:39-56 | applying true absolute quantities makes every listed price true and leaves all others alone, duplicates included |
| Levels.TopAgree | engine/book/book.go:74-93 | if a side is part of another and equals it on a set closed under better prices, their d best levels coincide while d levels remain in that set |
| Levels.LoadTopLevels | engine/book/book.go:109-125 | a loaded listing equals the truth on every price the listing covers and holds only covered prices |
| Feed.RunTracks | engine/backtest/replay/engine.go:151-175 | after any gapless run of true diffs a listed price is at the exchange's value for the last id, even if earlier diffs rewound it, and an unlisted one is untouched |
| Feed.RunStill | engine/backtest/replay/engine.go:151-175 | a price never listed by a gapless run did not move on the exchange during it |
| Feed.WindowExact | engine/symbol/handler.go:284-326 | snapshot at L, then gapless true diffs starting at or before L+1 and overlapping it arbitrarily: once they reach L the book equals the exchange on every covered or listed price and holds nothing else |
| Feed.NoPhantoms | engine/book/book.go:35-56 | every level such a book holds, the exchange holds with the same quantity |
| Feed.CompleteExact | engine/symbol/handler.go:225-229 | without truncation such a book is the exchange's book |
| Feed.TopExact | engine/symbol/handler.go:383-388 | with truncation the d best levels are the exchange's as long as d covered levels remain on the side |
| Feed.GaplessIff | engine/symbol/handler.go:308-314 | for an ordered feed reaching the snapshot: the book is right under every exchange history that explains snapshot and diffs if and only if no id is skipped |
| Feed.GapHidesResize | engine/symbol/handler.go:308-314 | if the book holds a level that no diff from a gap on lists, there is a history that explains the inputs, has levels at the same prices as the given one at every moment, so that it crosses no book, and with which the book disagrees |
| Truncation.TopTrustIff | engine/book/book.go:74-93 | once gapless diffs have caught up with a snapshot: the d best levels of a side are right under every explaining history if and only if the side was not cut or d covered levels remain |
| Truncation.ReplayKnown | engine/book/book.go:109-125 | a snapshot of such a book, however few covered levels are left, followed by gapless overlapping true diffs: right wherever it was certain or a diff says something, and nothing else is held |
| Rewinding.OrderedTrustIff | engine/book/book.go:35-56 | the same condition for any snapshot and ordered diffs applied to it, with the histories that refute the book whenever it fails |
| SyncProtocol.FetchDiscipline | engine/symbol/handler.go:116-223 | in every reachable state the fetches in flight are 1 if pending and else 0; pending or stale implies bootstrapping without a snapshot; synced implies no fetch, snapshot or buffer; the buffer stays within its limit; resyncing is never left visible |
| SyncProtocol.NoLateFetch | engine/symbol/handler.go:182-211 | in no run can a fetch complete on a handler that is not bootstrapping or that holds a snapshot, so a synced book is never overwritten |
| SyncProtocol.OverflowDiscardsFetch | engine/symbol/handler.go:129-145 | an overflow during a fetch marks it; the mark survives failed fetches; the next snapshot is discarded and fetched again; nothing else sets the mark |
| SyncProtocol.NeverStranded | engine/symbol/handler.go:213-223 | unless a fetch fails during shutdown, a bootstrapping handler always holds a snapshot or has a fetch in flight |
| HandlerSteps.SyncedDelivery | engine/symbol/handler.go:334-379 | a synced handler stays synced if and only if the diff is the next in sequence and the book does not refuse it; then the book is the old one with the diff applied, and a checkpoint of it is written exactly when the count or the interval is reached; otherwise book and counters are reset and the diff alone is buffered, with one fetch |
| HandlerSteps.StaysSynced | engine/symbol/handler.go:334-351 | from any reachable synced state, on contiguous deliveries that the book takes: every state stays synced, exactly the deliveries are applied, and the book is the old one with all of them applied |
| HandlerSteps.FirstDelivery | engine/symbol/handler.go:116-124 | the first diff is buffered and starts the bootstrap with one fetch |
| HandlerSteps.WaitingDelivery | engine/symbol/handler.go:125-145 | without a snapshot a diff is buffered if it fits; otherwise everything is dropped, and the fetch in flight is marked or a new one started |
| HandlerSteps.AligningDelivery | engine/symbol/handler.go:146-152 | with a snapshot the diff is buffered and the alignment tried again |
| HandlerSteps.FetchFails | engine/symbol/handler.go:213-223 | a failed fetch changes nothing and is repeated, unless the handler is shutting down |
| HandlerSteps.FetchIsStale | engine/symbol/handler.go:200-206 | the snapshot of a marked fetch is dropped, the mark cleared, and a new fetch started |
| HandlerSteps.FetchSucceeds | engine/symbol/handler.go:182-211 | any other snapshot is kept and the alignment tried |
| HandlerSteps.AlignmentOutcome | engine/symbol/handler.go:230-332 | among the diffs ending after the snapshot, the first that also reaches it decides: everything from there on is replayed over the snapshot, and the handler is synced with that book unless the book refuses a diff, when it starts over; with no such diff it keeps waiting, or starts over if the buffer is too full |
| HandlerSteps.DiscardIs | engine/symbol/handler.go:261-269 | the kept diffs are exactly those ending after the snapshot, each once and in order |
| HandlerSteps.AlignmentIs | engine/symbol/handler.go:273-280 | the index is the first position with first - 1 <= id < final, and -1 only if there is none |
| HandlerSteps.DefaultLimits | engine/symbol/handler.go:63-88 | limits that are not positive become 50 levels, 500 diffs and 1000 buffered diffs |
| SyncSafety.AppliedOnceInOrder | engine/symbol/handler.go:116-152 | in every run the applied diffs followed by the buffered ones are a subsequence of the deliveries, through resyncs, overflows and refused diffs: none is applied twice or out of order |
| SyncSafety.AppliedIdsIncrease | engine/symbol/handler.go:317-319 | on a feed with increasing ids the ids handed to the repository increase strictly across epochs |
| SyncSafety.WarnsIffGap | engine/symbol/handler.go:308-314 | on an ordered buffer that starts at an alignment point the logged gap warning is exactly a skipped id |
| SyncSafety.SyncSafe | engine/symbol/handler.go:284-349 | in every interleaving of ordered truthful diffs and depth-limited snapshots, with stale, failed and repeated fetches and any gaps while synced: a synced book without a bootstrap warning carries the id it claims, equals the exchange on its window, and is the exchange's book if nothing was cut |
| SyncSafety.PublishedExact | engine/symbol/handler.go:344-351 | in honest runs without a logged gap, for the book as it stands while synced: no level is a phantom and the d best levels are the exchange's while d covered levels remain |
| SyncSafety.TrustIffNotWarned | engine/symbol/handler.go:296-331 | in every run on an honest, ordered feed a synced book is right under every history that explains the snapshot and diffs it was made from if and only if its bootstrap logged no gap |
| SyncSafety.WarnedBookIsWrong | engine/symbol/handler.go:308-331 | an honest three-step run that ends synced and warned, with a book that lacks a level of the exchange |
| SyncSafety.PublishedTrustIff | engine/symbol/handler.go:344-351 | for the same books: the d levels listed of a side are those of every explaining history if and only if the side was loaded whole or still holds d of the loaded levels |
| Publication.LastPublished | engine/symbol/handler.go:306-351 | the book of a state that a step leaves synced is the last book the step publishes |
| Publication.PublicationTrustIff | engine/symbol/handler.go:306-351 | every book published by any step of an honest run, also in the middle of a bootstrap replay and before one is abandoned: right under every explaining history if and only if the diffs behind it skip no id |
| Publication.PublicationDepthIff | engine/symbol/handler.go:306-388 | and its d levels of a side are those of every explaining history if and only if the side was loaded whole or still holds d of the loaded levels |
| Publication.PublicationExact | engine/symbol/handler.go:306-388 | without a skipped id such a book equals the exchange on its window, holds no phantom, and is the exchange's book if nothing was cut |
| SyncSafety.SyncedContiguous | engine/symbol/handler.go:334-349 | in every run, whatever the feed, the diffs applied from entering the synced phase until the next resync are contiguous |
| SyncSafety.CheckpointTruthful | engine/symbol/handler.go:365-378 | a checkpoint is written only when synced, from the current book; in honest runs without a logged gap it lists no phantom and is right wherever book and checkpoint cover, and it is a truthful snapshot if each side is whole or deep enough |
| SyncSafety.CheckpointTrustIff | engine/symbol/handler.go:365-378 | in honest runs a checkpoint is a truthful snapshot under every explaining history if and only if no gap was logged and each side was loaded whole or still holds the depth limit of loaded levels |
| BootstrapProgress.AlignmentIsZeroOrNone | engine/symbol/handler.go:230-280 | on a contiguous buffer, after discarding, the alignment index is 0 or -1, and in the latter case every kept diff starts beyond L+1 |
| BootstrapProgress.DeliveryProgress | engine/symbol/handler.go:125-145 | each contiguous delivery to a waiting handler ends the wait or strictly decreases its remaining patience |
| BootstrapProgress.BoundedWait | engine/symbol/handler.go:230-280 | a handler holding a snapshot becomes synced or issues a new fetch within a stated number of further contiguous diffs, whatever the book accepts or refuses |
| BootstrapProgress.AheadWaitEnds | engine/symbol/handler.go:241-258 | a wait for a feed behind the snapshot lasts until the first diff that reaches past it; then the handler is synced exactly if the book takes that diff, and fetches again exactly if it does not |
| BootstrapProgress.BehindWaitEnds | engine/symbol/handler.go:241-258 | a wait with too old a snapshot never ends synced: the buffer keeps every diff until it is full, and the next diff empties it and starts a fetch |
| BootstrapProgress.BufferFollowsFeed | engine/symbol/handler.go:116-152 | along every run on a contiguous feed the buffer is the end of the feed and a handler holding a snapshot is in the waiting state the bound is about |
| SymbolHandler.Handler.constructor | engine/symbol/handler.go:63-88 | a new handler is in the initial state with unset limits replaced by their defaults |
| SymbolHandler.Handler.HandleDiff | engine/symbol/handler.go:116-152 | the whole new state of the object is the protocol's delivery step |
| SymbolHandler.Handler.CompleteFetch | engine/symbol/handler.go:182-211 | the whole new state is the protocol's completion step for success, error, shutdown and stale results |
| SymbolHandler.Handler.KickoffSnapshot | engine/symbol/handler.go:169-180 | a fetch starts unless one is pending |
| SymbolHandler.Handler.TryAlign | engine/symbol/handler.go:230-258 | the whole new state is the protocol's alignment |
| SymbolHandler.Handler.ReplayAlignedBuffer | engine/symbol/handler.go:284-332 | load, apply, and the abandoned or finished replay, including the gap warning, are the protocol's replay |
| SymbolHandler.Handler.HandleSynced | engine/symbol/handler.go:334-379 | gap, refusal and in-sequence application with its checkpoint are the protocol's synced step |
| SymbolHandler.Handler.EnterResync | engine/symbol/handler.go:408-418 | the book and counters are reset, the pending diff alone is buffered and a fetch is kicked off |
| SymbolHandler.DiscardPreSnapshot | engine/symbol/handler.go:261-269 | compacting the shared storage in place keeps exactly the diffs ending after the id, in order, without overwriting an unread one |
| SymbolHandler.FindAlignmentIndex | engine/symbol/handler.go:273-280 | the loop returns the first alignment position or -1 |
| SymbolHandler.Play | engine/symbol/handler.go:116-211 | a handler object driven by any schedule ends in the last state of that schedule's run, so the theorems about runs are about the object |
| Replay.Engine.Run | engine/backtest/replay/engine.go:108-178 | for every outcome: one event per published diff in order, every gap counted, announced and recorded once, every diff paced, and the reason for stopping; completion publishes all |
| Replay.Engine.MaybeHandleGap | engine/backtest/replay/engine.go:182-191 | a gap is reported exactly at an id discontinuity and the pacing clock restarts exactly after a reseed |
| Replay.Engine.HandleGap | engine/backtest/replay/engine.go:224-268 | the gap is announced and recorded in any case; the book is replaced exactly if a checkpoint is found |
| Replay.SeedIs | engine/backtest/replay/engine.go:182-262 | the book stands on the checkpoint found for the last id discontinuity that had one, whatever its id, counted from the diff after that gap; on the starting checkpoint if none had one |
| Replay.GapsAre | engine/backtest/replay/engine.go:182-250 | the k-th record names the event times on both sides of the k-th id discontinuity, and there is one for each |
| Replay.StoppedOnce | engine/backtest/replay/engine.go:108-178 | the answers of the environment decide after how many diffs a replay ends and whether completed, failed or cancelled: no two ends fit the same answers |
| Replay.PublishedAt | engine/backtest/replay/engine.go:208-218 | event i carries diff i's event time and final id and the best levels of the book made of the seed and every diff since, diff i included |
| Replay.PacedAt | engine/backtest/replay/engine.go:182-218 | diff i is paced to its event time, from that of diff i-1, and from none exactly at the start and at a gap for which a checkpoint was found |
| Replay.GapCount | engine/backtest/replay/engine.go:151-155 | the number of recorded gaps is the number of adjacent id discontinuities |
| Replay.ReplayExact | engine/backtest/replay/engine.go:121-175 | whatever gaps were passed over before the last seed: if its id reaches the first diff applied to it and no gap follows, the book equals the exchange on the seed's window after every diff that has caught up with the seed |
| Replay.ReseedTrustIff | engine/backtest/replay/engine.go:208-267 | after any number of gap-free diffs since a seed: the published book is right under every explaining history if and only if the seed's id + 1 is not before the first of them and the last of them has caught up with the seed |
| Replay.ReplayTrustIff | engine/backtest/replay/engine.go:151-268 | for all ordered diffs since a seed, wherever it stands among them and whatever gaps were passed over: the book is right under every explaining history if and only if they have caught up with the seed, skip only ids it has seen, and rewound no price before such a gap to anything but the seed's quantity |
| Replay.PassedGapTrustIff | engine/backtest/replay/engine.go:252-268 | for ordered diffs whose first reaches the seed: the book is right under every explaining history if and only if no id was skipped since the seed, so a gap without a checkpoint costs trust until the next reseed |
| Replay.ReplayReproducesLive | engine/backtest/replay/engine.go:121-175 | replaying, from a checkpoint of the live book, diffs of its epoch that are contiguous with each other and with the last one before the checkpoint gives the live book on the checkpoint's window, and the whole live book if nothing was cut |
| EndToEnd.CheckpointReplays | engine/symbol/handler.go:365-378 | a checkpoint written in an honest run without a logged gap, replayed with any overlapping gap-free true diffs: the exchange's quantity wherever the checkpoint was certain or a diff says something, no other level, and the checkpoint's whole window if each side was deep enough |
| EndToEnd.ReplayReproducesRun | engine/backtest/replay/engine.go:121-178 | in any run that has stayed synced since a checkpoint, on any feed of well-made diffs: the engine fed that checkpoint and the diffs applied since the last buffered one, or more if those were contiguous, ends with the handler's book on the checkpoint's window, and with that very book if nothing was cut |
| EndToEnd.ReplayAcrossResyncsIff | engine/symbol/handler.go:327-331 | an honest run through any number of resyncs: a replay from a trustworthy checkpoint over the diffs applied since, not reseeded, is right under every explaining history after each of them if and only if they skip no id |
| Fills.FillIsPessimistic | engine/fillmath/fill.go:15-24 | buy and sell fills deviate from the quote by the same slippage, against the trader |
| Fills.RoundTripNeverGains | engine/fillmath/fill.go:15-30 | buying at the ask and selling at a bid not above it never earns cash, whatever slippage and fee |
| Fills.BasisPoints | engine/fillmath/fill.go:15-30 | the price moves by the slippage in ten-thousandths of the quote, and the fee is its rate in ten-thousandths of the value traded |
| RiskChecker.Checker.CanTrade | engine/risk/checker.go:174-278 | verdict and whole new state follow the order halted, drawdown, run loss, position limit |
| RiskChecker.Checker.ProbePersistedHalt | engine/risk/checker.go:149-163 | the store is asked once; a failure is ignored; a persisted halt halts |
| RiskChecker.Checker.RecordFill | engine/risk/checker.go:288-307 | position, cash equity and peak after a fill |
| RiskChecker.ApprovedIff | engine/risk/checker.go:174-278 | an order is approved if and only if the checker is not halted, the store reports no halt, no enabled loss exceeds its percentage of the peak or of the initial capital, and the position after the order lies within its limit on both sides of zero, if there is one |
| RiskChecker.BlockedBecause | engine/risk/checker.go:174-278 | otherwise verdict, halt reason and the one event sent name the first of these that fails, in that order |
| RiskChecker.CheckLeaves | engine/risk/checker.go:149-278 | a check moves neither positions nor equity nor peak, and no later answer of the store matters once it has been asked |
| RiskChecker.FillIs | engine/risk/checker.go:288-307 | a buy costs its value and its fee, a sell earns its value less its fee; the position of that symbol alone moves, by the signed quantity; the peak follows the equity up |
| RiskConcurrency.PositionBound | engine/backtest/execution/executor.go:208-273 | with one loop per symbol, in every interleaving of checks and later fills no position exceeds its non-negative limit, nor would it after any approved order |
| RiskConcurrency.BoundIffDistinct | engine/backtest/execution/executor.go:84-88 | the bound holds for all limits and schedules if and only if no two loops trade the same symbol |
| RiskConcurrency.HaltIsFinal | engine/risk/checker.go:178-188 | once halted no schedule approves anything again, the reason stays, and the fills still recorded are at most the approvals outstanding |
| RiskConcurrency.BoundedOverrun | engine/risk/checker.go:190-242 | from the check that fires a halt on, at most one fill for each other loop is recorded |
| RiskConcurrency.HaltFiresIff | engine/risk/checker.go:178-242 | a step halts exactly when it is a check that finds a persisted halt or a broken loss rule |
| RiskConcurrency.PeakIsHighWater | engine/risk/checker.go:304-307 | in every schedule the peak bounds the equity of all states so far and was attained by one |
| RiskConcurrency.ApprovalMeans | engine/risk/checker.go:190-242 | an approval implies not halted and losses from peak and from initial capital within the configured percentages |
| Blotter.ApplyFill | engine/execution/blotter/blotter.go:162-222 | the shared position object and the realised profit after closing, opening or extending on either side |
| Blotter.Blotter.RecordFill | engine/execution/blotter/blotter.go:98-159 | the whole new state for an accepted and for a refused fill of any quantity that does not make the average divide by zero; other symbols' position objects are untouched |
| Blotter.Blotter.UndoFill | engine/execution/blotter/blotter.go:226-238 | the quantity is put back, the average entry is not |
| Blotter.Blotter.SeedPositions | engine/execution/blotter/blotter.go:63-73 | later rows win, each with its own position object |
| Recovery.SeededLast | engine/execution/blotter/blotter.go:63-73 | of several seeded rows of a symbol the last one is held |
| Recovery.SeededElse | engine/execution/blotter/blotter.go:63-73 | a symbol without a seeded row keeps what it had |
| Ledgers.ClosingIs | engine/execution/blotter/blotter.go:185-201 | closing realises the difference to the average entry, which stays while something is left on that side and is zero otherwise |
| Ledgers.OpeningIs | engine/execution/blotter/blotter.go:203-222 | opening realises nothing and enters at the price |
| Ledgers.ExtendingIs | engine/execution/blotter/blotter.go:203-222 | extending realises nothing and enters at the average weighted by volume |
| Ledgers.AcceptedIs | engine/execution/blotter/blotter.go:98-135 | an accepted fill persists itself, what it realised, the position then held and the new equity, and moves no other position |
| Ledgers.DiscrepancyIs | engine/execution/blotter/blotter.go:185-222 | realised profit balances cash and cost of open positions for opening, VWAP extension and closing; the surplus of an overshooting close is written off at the average entry |
| Ledgers.BalanceKeptIff | engine/execution/blotter/blotter.go:185-201 | an accepted fill keeps equity = cash + Σ net·avgEntry if and only if it does not close more than is open or the average entry was zero |
| Ledgers.BlotterIdentity | engine/execution/blotter/blotter.go:98-222 | for all lists of non-overshooting fills, VWAP extension included, blotter equity = cash + Σ net·avgEntry |
| Ledgers.EquityModelKept | engine/execution/blotter/blotter.go:108-146 | for every list of fills and store answers: equity = initial + Σ realised profit − Σ fees of the persisted rows, the rows are the accepted fills in order, the last equity row is the equity, and net quantities are those of the accepted fills |
| Ledgers.LastPositionHeld | engine/execution/blotter/blotter.go:124-130 | after an accepted fill of any session the last persisted position is the one the blotter then holds |
| Ledgers.RollbackIff | engine/execution/blotter/blotter.go:137-146 | a refused fill restores equity, rows, quantity and other symbols, and leaves the average entry where it moved it; the position is as before if and only if the fill would not have moved the average entry |
| Ledgers.RefusedBalanceIff | engine/execution/blotter/blotter.go:226-238 | a refused fill keeps equity = cash + Σ net·avgEntry if and only if the position is flat or the fill would not have moved the average entry |
| Ledgers.SessionIdentity | engine/execution/blotter/blotter.go:98-238 | for every list of fills and store answers in which accepted fills do not overshoot and refused ones are harmless: equity = cash of the accepted fills + Σ net·avgEntry |
| Ledgers.SameCashAndPositions | engine/risk/checker.go:288-302 | blotter, checker and tracker hold the same net position in every symbol, and checker equity and tracker cash are the cash balance |
| Ledgers.TrackerOverChecker | engine/backtest/collector/collector.go:418-440 | at all times tracker equity = checker equity + Σ net quantity · last fill price |
| Ledgers.EquitiesCoincideWhenFlat | engine/backtest/collector/collector.go:418-440 | fed the same non-overshooting fills, the three modules report the same equity whenever all positions are flat |
| Ledgers.BlotterOverChecker | engine/risk/checker.go:280-302 | at all times blotter equity = checker equity + Σ net·avgEntry |
| Collector.EquityTracker.ApplyFill | engine/backtest/collector/collector.go:420-440 | cash, position and mark of the symbol are updated and the returned equity is that of the new state |
| Collector.EquityTracker.EquityNow | engine/backtest/collector/collector.go:431-439 | the loop over the map gives cash plus all marked positions in whatever order the map is iterated |
| Trading.SumQty | engine/signals/compute/signals.go:91-100 | the loop with its break sums the first depth quantities, or all |
| Trading.ImbalanceMeaning | engine/signals/compute/signals.go:27-46 | the imbalance lies in [-1, 1], is positive exactly when more is bid than asked within the depth, is antisymmetric, and ignores levels beyond the depth |
| Trading.ImbalanceIs | engine/signals/compute/signals.go:27-34 | for all books: imbalance times total quantity is bids less asks, and it is zero when the total is |
| Trading.QtySumIs | engine/signals/compute/signals.go:91-100 | each quantity is counted once |
| Trading.CountedIs | engine/signals/compute/signals.go:91-100 | the first depth levels count, or all if there are fewer or the depth is not positive |
| Trading.SignalsAre | engine/signals/compute/signals.go:27-46 | the three signals of an event: imbalance, spread in basis points of the mid price, and the mid price halfway between the best prices |
| Trading.Executor.HandleL2 | engine/backtest/execution/executor.go:183-274 | decision, risk gate, fill, position and order for one book event, including the event whose crossed side is empty |
| Trading.DecisionIs | engine/backtest/execution/executor.go:183-206 | in quantities: buy if and only if bids exceed asks by more than the threshold's share of both and the position is not long; sell likewise, unless a buy is due |
| Trading.FillIs | engine/backtest/execution/executor.go:216-246 | a fill has the configured quantity, the quote worsened by the slippage, and the fee on its value |
| Trading.DeskIs | engine/backtest/execution/executor.go:183-274 | an order is published, the position moved and the checker told exactly when the decision is approved and the crossed side has a price |
| Trading.LiveHandler.HandleMessage | engine/execution/l2cache/cache.go:138-167 | the cached best prices change only when both sides have a non-zero best price |
| Trading.CacheIs | engine/execution/l2cache/cache.go:138-167 | an event with two non-zero best prices replaces the cached pair of its symbol, any other event changes nothing |
| Trading.LiveHandler.Handle | engine/execution/cmd/erebor-execution/main.go:200-221 | the whole new state for one signal; an error is returned exactly when a due fill could not be persisted |
| Trading.LiveHandler.Execute | engine/execution/cmd/erebor-execution/main.go:223-274 | the fill reaches blotter, checker and order stream, or only the blotter's roll-back |
| Trading.RefusedFill | engine/execution/cmd/erebor-execution/main.go:223-274 | a fill the store refuses is neither published nor known to the checker, and equity, rows and quantities stay |
| Bisimulation.SameDecision | engine/execution/decider/decider.go:33-48 | decider and executor decide alike on the same imbalance and position |
| Bisimulation.DueOrderIs | engine/backtest/execution/executor.go:183-220 | when an order is due, in quantities, percentages and limits only |
| Bisimulation.StepAgreesIff | engine/execution/cmd/erebor-execution/main.go:200-273 | from related states, with a successful persist: the paths publish the same for an event if and only if no order is due or the cached price is the one crossed (or the slippage is the whole price), and then stay related |
| Bisimulation.LiveMatchesBacktest | engine/backtest/execution/executor.go:183-303 | over every sequence of events, one-sided or not, with successful persists and no earlier halt: the same orders after every event if and only if at every event the paths agree in that sense, which the backtest and the events alone decide; then positions and risk state stay equal |
| Bisimulation.LivePricesAreCached | engine/execution/l2cache/cache.go:138-167 | the prices a live run trades at are a fold over the events, whatever it decided, filled or failed to store |
| Bisimulation.TwoSidedMatches | engine/execution/l2cache/cache.go:138-167 | in particular the paths agree over every sequence of two-sided events |
| Bisimulation.OneSidedDiverges | engine/backtest/execution/executor.go:292-303 | an instance: with an empty ask side the executor skips while the live path fills at the cached ask |
| Bisimulation.LiveLedgerIdentity | engine/execution/cmd/erebor-execution/main.go:200-273 | in every live run with successful persists, over any events: net quantities are -q, 0 or q, blotter and checker positions are equal, and blotter equity = checker equity + Σ net·avgEntry |
| Bisimulation.AllEquitiesCoincideWhenFlat | engine/backtest/collector/collector.go:418-440 | when the paths have agreed and all is flat, live blotter, live checker, backtest checker and the collector of the backtest's orders report one equity |
| Recovery.Recover | engine/execution/cmd/erebor-execution/main.go:115-131 | the seeded blotter and the checker fed one buy per recovered row |
| Recovery.RecoveryAgreesIff | engine/execution/cmd/erebor-execution/main.go:125-131 | after recovery blotter and checker positions agree if and only if no recovered position is short |
| Recovery.TableIs | engine/execution/repository/repository.go:196-240 | in every session the positions table, one row per symbol, holds for each symbol the position as of its last accepted fill |
| Recovery.RecoveryRestores | engine/execution/blotter/blotter.go:63-159 | the round trip of any session through the table: a blotter seeded with it holds every net quantity again, and the whole position of every symbol whose average entry no later refusal moved |
| Recovery.SeededEquity | engine/execution/cmd/erebor-execution/main.go:125-131 | the checker's equity after recovery is the initial capital less the absolute cost of every recovered position, long or short |
| Streams.AfterPrefix | engine/backtest/execution/executor.go:163-169 | reading exclusively after the last handled id continues exactly where handling stopped |
| Streams.Consumer.RunReader | engine/backtest/execution/executor.go:124-161 | while producers append and reads time out or fail: reading stops at the first answer that finds the context cancelled; everything read until then has been handled, and it is a prefix of the stream; the loop goes through steps of the transition system that the pipeline is made of |
| Streams.Consumer.Drain | engine/backtest/execution/executor.go:163-181 | the drain of a quiescent stream handles the rest exactly once and in order unless a read fails, again by steps of the transition system |
| Pipeline.HandledInOrder | engine/backtest/collector/collector.go:214-293 | in every interleaving what each loop has handled is an initial part of its stream |
| Pipeline.NothingLost | engine/backtest/runner/runner.go:220-230 | in every interleaving of replay, executor loops and collector, a finished run without a failed drain read has handled every published event and order exactly once, in order |
| Metrics.PairTrades | engine/backtest/metrics/computer.go:157-182 | the per-symbol queues pair the k-th matched sell of a symbol with its k-th buy |
| Pairing.FirstInFirstOut | engine/backtest/metrics/computer.go:157-182 | the profits are those of pairs of a buy and a later sell of the same symbol, in the order of the sells, revenue less cost; the k-th pair of a symbol takes its k-th buy |
| Pairing.PairedIff | engine/backtest/metrics/computer.go:168-182 | a trade closes a buy if and only if it is a sell and its symbol was bought more often before than paired |
| Pairing.WinsAndLosses | engine/backtest/metrics/computer.go:176-182 | wins and losses together are the profits |
| Pairing.SignsAre | engine/backtest/metrics/computer.go:176-182 | a win is above zero, a loss is not |
| Pairing.AverageIs | engine/backtest/metrics/computer.go:194-199 | average times count is the total, and the average of nothing is zero |
| Pairing.AveragesAddUp | engine/backtest/metrics/computer.go:186-199 | the number of wins times their average plus the same of the losses is the total profit |
| Metrics.TradeMetrics | engine/backtest/metrics/computer.go:157-201 | trade count, hit rate and average win and loss of that pairing |
| Metrics.ProfitConservation | engine/backtest/metrics/computer.go:163-182 | for all trades: wins + losses = cash earned + cost of queued buys − revenue of unmatched sells |
| Metrics.QueuedCostIs | engine/backtest/metrics/computer.go:158-173 | the cost of queued buys is the sum over all symbols of what is left in their queues |
| Metrics.AllMatchedIff | engine/backtest/metrics/computer.go:168-182 | wins and losses count all sells if and only if no symbol was ever sold more often than bought |
| Metrics.ProfitsMatchCash | engine/backtest/metrics/computer.go:157-184 | then wins + losses = tracker cash − initial capital + cost of the buys still queued |
| Metrics.MaxDrawdown | engine/backtest/metrics/computer.go:77-112 | the loop computes the running-peak drawdown and reports zero for short series and series starting at zero |
| Metrics.PeakDropsMostIff | engine/backtest/metrics/computer.go:100-112 | the drop from the running peak is the largest drop to a point if and only if the point is not negative or all positive values so far are the peak |
| Metrics.ReportedIsMaxIff | engine/backtest/metrics/computer.go:77-112 | for every series whatsoever: the reported drawdown is the largest drop over all pairs of an earlier positive and a later point if and only if nothing falls below zero after having been above, or one of the deepest such falls is preceded by a single positive value; a series starting at zero needs instead that no positive value is followed by a smaller one |
| Metrics.SinglePassIsMax | engine/backtest/metrics/computer.go:100-112 | in particular for every non-negative series starting above zero it is |
| Metrics.NegativeEquityUnderstated | engine/backtest/metrics/computer.go:100-112 | a series with a negative value for which the single pass is not the largest drop |

## Left out

- Decimal arithmetic: reals are exact, while the decimal library's division rounds to sixteen digits; imbalance, VWAP, thresholds, fees and drawdown are modelled without rounding.
- Update ids are unbounded integers; overflow of a 64-bit id is not modelled.
- Price keys are numbers; the decimal-to-string encoding of map keys, JSON and stream fields, and decoding failures are not modelled.
- Redis, Postgres, HTTP, WebSocket, logging, configuration loading, dashboard, migrations and infrastructure.
- The handler's assertion that its book can load snapshots is taken to succeed, as it does for the repository's book; the mutex inside the book is not modelled because each book has one owner.
- The handler's L2 publications and failed diff writes are not recorded in its state: `applied` is the sequence of attempts, in order, and `Publication.Publishes` says which books a step publishes.
- Checkpoint and pacing clocks: elapsed time is an input of the step; the speed controller's sleeping is reduced to the pairs of event times it receives.
- Sync safety across gaps inside the bootstrap buffer is not claimed; `TrustIffNotWarned` shows that it fails exactly there.
- SyncSafety.SyncSafe: requires diffs whose ids never go backwards, as one connection to the exchange delivers them, because the code compares no ids while it replays its buffer; gaps and repeated ids are allowed.
- Blotter.Blotter.RecordFill: requires that the average entry does not divide by zero, which only a negative fill quantity can bring about; the decimal library panics there.
- Bisimulation.LiveMatchesBacktest: a negative trade quantity is not modelled on the live path.
- Ledgers.BlotterIdentity: fills have non-negative quantities, as the configured trade quantity gives them.
- Executor.HandleL2: the order stream's answer is not modelled, because the code only logs a failure.
- Streams.Consumer.Drain: does not model producers appending during the drain, because the runner stops them first; `Pipeline.NothingLost` covers the orders stream, to which the executor still publishes while others drain.
- Bisimulation.StepAgreesIff: does not cover refused fills and a halt persisted by an earlier session, which the backtest has no counterpart for.
- The signals loop of the collector, session lifecycle, redelivery and acknowledgement of signals, and exactly-once fills across redelivery.
- Sharpe ratio and annualised return, which are floating-point figures.
- Stream reconnect and backoff, and the dispatcher's routing.
