# Order-book capture, proved

A Dafny model of a Binance USD-M futures collector: the protocol that turns a lossy stream of depth diffs and
REST snapshots into an order book, the offline code that rebuilds and validates books from the recorded tape, and
the smaller concurrent and stateful parts around them. `dafny verify dfyconfig.toml` checks the whole project.

The order-book half is stated against a ghost **exchange** (`Exchange.World`): the true book at every update id, and a
history of diffs that chain (`pu` of each is `u` of the one before) and list at least every price that changed in
their span with its quantity at `u`. A **book** is worth something relative to a **horizon**, the price up to
which it is known to be complete: `Exact` means every held level is true at the book's own id and every true level up
to the horizon is held. Prices are integer ticks, quantities naturals (zero deletes), ids unbounded naturals.

| file | what it holds |
|---|---|
| `Basics.dfy` | options, unsigned subtraction, small sequence facts |
| `Ladder.dfy` | one side of a book: absolute updates, the depth trim, horizons, when the touch can be trusted |
| `Exchange.dfy` | the exchange, exactness, gap-free folds, the trim as a refinement of the full book |
| `Chains.dfy` | the exact condition under which a replay of part of a history is right, from a true book and from any other |
| `Healing.dfy` | what a live book is worth after losses |
| `Normalize.dfy` | sort, de-duplicate, sort again: the canonical form of a drained batch |
| `OrderBook.dfy` | the book object, updated and trimmed in place |
| `Attach.dfy` | bridging a batch onto a snapshot and following it |
| `Ring.dfy` | the bounded per-symbol buffer |
| `Manager.dfy` | the per-symbol operations in place, against the functions above |
| `Collector.dfy`, `Runs.dfy` | one symbol's life as a state machine over its concurrent steps, and theorems over every run |
| `Spans.dfy` | the exact condition for a right book before Live, over every run and every exchange with the same ids |
| `Retries.dfy` | what follows an attach that met a break |
| `Rebuild.dfy`, `RebuildAt.dfy` | the day validator's replay and the rebuild as of an instant |
| `Reports.dfy` | what both report for any rows, said of the rows alone; from files to book |
| `Seeds.dfy` | both with a seed that need not be the true book, and with the live book written out as the seed |
| `CsvBytes.dfy` | byte-level bisection and backward tail reading |
| `Breaker.dfy`, `Limiter.dfy` | the shared circuit breaker and the rolling-window limiter |
| `DepthFile.dfy` | the buffered depth writer under write failures |
| `Tracker.dfy` | the two-strike symbol tracker and the discovery loop |
| `Buckets.dfy`, `TradeWindow.dfy` | REST bucket de-duplication and the trade-id window |

## What the proofs found

Each of these is a lemma with a concrete input or a run, next to the condition under which the code is right; where it
says if and only if, both directions are proved for all inputs.

- **Before Live a book is right if and only if every diff applied to it spans its id** (`Spans.RightBeforeLiveIff`): in
  any run at all, with a positive depth limit, it is exact up to its recorded reach in every exchange with the same ids
  exactly then, and a first application out of span makes it wrong in one of them for every reach
  (`Spans.OutOfSpanIsWrong`). Quiet sweeps are enough for it (`Runs.QuietRunsApplyInSpan`). Without them it can fail:
  the live loop lists Live symbols and drains them later; if the sweep removes a listed symbol in between and its
  manager fetches a new snapshot, the live loop applies diffs to that snapshot unchecked while the symbol is still
  syncing (`Runs.StaleListingBreaksSoundness`). The attach's own chain test looks at the last id it applied, not at the
  book, so it does not notice either.
- **A Live symbol can be without a book** (`Runs.SweepCanOrphan`), until it is delisted (`Runs.OrphanStays`). It has its
  book in all of a run if and only if every step to Live finds the book still there (`Runs.LiveHasBookIff`), a test the
  code does not make; and the manager can rely on its book if and only if the sweep never removes the symbol between
  the snapshot and the step to Live (`Runs.BookIsHeldIff`). The run shown respects the sweep's two-hour idle test: the
  book is listed while fetches fail, and removed after one has succeeded. It is about the interleavings the code
  allows, not about how likely they are.
- **A trimmed book can be gap-free and still quote a wrong touch**, at any depth (`Exchange.TrimmedTouchCanBeWrong`).
  The touch is certain exactly when a held level lies within one tick of the horizon or better
  (`Ladder.TouchCertifiedExactly`).
- **Two branches of the attach cannot be taken**: the "stale snapshot, gap > 10000" resnapshot
  (`src/collectors/orderbook_manager.rs:659`) and the "already covered" skip after the bridge
  (`src/collectors/orderbook_manager.rs:636`). Both are dead ends in `Manager.SymbolManager`, whatever the batch.
- **A clear gap flag does not make the rebuilt book right**: the junction from the snapshot to the first applied diff
  is not looked at (`RebuildAt.GapFlagMissesJunction`). Seeded with the true book, and whatever rows are read, the
  rebuilt book is right for every exchange the applied diffs describe if and only if the flag is clear and the first of
  them starts no later than the snapshot (`RebuildAt.SeekCertificateIff`).
- **Zero continuity breaks do not either** (`RebuildAt.LateTapeGoesUnnoticed`). Seeded with the true book they do if and
  only if the first row of the tape starts no later than the snapshot (`Rebuild.NoBreaksCertifyIff`), of which a row the
  snapshot covers is one sign (`Rebuild.CoveredRowSuffices`).
- **Nor do both together when the seed has drifted** (`Seeds.CleanTapeOverDriftedSeed`). The newest snapshot is normally
  the live book written out again (`src/collectors/orderbook_manager.rs:869-936`, `docs/ORDERBOOK.md:93-97`), which can
  be wrong after a loss. What the same two conditions certify then, for every seed and price, is that the rebuilt book
  is wrong exactly where the seed was and no diff of the tape past it lists that price (`Seeds.RebuiltWrongIff`,
  `Seeds.SoughtWrongIff`); so it is exact just when the tape lists every price the seed was wrong about, and that holds
  for all seeds if and only if the conditions do (`Seeds.NoBreaksSeedDecidesIff`, `Seeds.SeekSeedDecidesIff`). With a
  live book as the seed, each such price was touched by a diff lost since the attach and listed by nothing received or
  taped after it (`Seeds.RebuiltFromLive`, `Seeds.SoughtFromLive`).
- **An attach that meets a break is not retried to success on the same book**: `docs/ORDERBOOK.md:76` says it "aborts and
  retries", but with in-order arrivals every later batch starts past the book, so the next non-empty attempt finds the
  snapshot too old and a new one is fetched (`Retries.AbortIsFinal`, `Retries.DoomedIsTooOld`). Every exchange with
  three diffs admits a run that gets there (`Retries.BreakIsReached`).
- **Skipping files by name can lose diffs** (`RebuildAt.ClockSkewLosesDiffs`): snapshot rows are stamped by the collector,
  diffs by the exchange. With rows filed by the hour of their stamp it loses nothing if and only if every row of an hour
  that ended by the snapshot's stamp is covered by the snapshot (`RebuildAt.SkippingIsExactIff`).
- **The tail reader asked for zero rows returns the whole tail** (`CsvBytes.TailOfZeroIsNotEmpty`): a Python slice
  `[-0:]`; the exact condition is `CsvBytes.TailIsLastRowsIff`. No caller asks for zero today: they pass 60, 12
  or 1 (`dashboard/backend/server.py:482`, `dashboard/backend/server.py:503`).
- **A caller can be admitted while the breaker is shut**, because the check and the admission are separate steps
  (`Limiter.TripCanBeOvertaken`). That is so if and only if a trip past the moment of admission came before it, unseen
  by the check (`Limiter.LateTripOnly`).
- **A REST bucket whose write fails is never written**, because it is recorded first and so attempted once
  (`Buckets.OneAttemptDecides`; `Buckets.RefusedOnceIsGone` is the input).
- Where text and code differ, the code is followed: `docs/ORDERBOOK.md:192` calls a book with equal best prices
  crossed, the code does not (`dashboard/backend/server.py:726`); `docs/ORDERBOOK.md:67` names a function
  `bridge_and_apply` that the code splits into `find_bridge` and `try_attach_to_stream`.

## Model

| member | source | states |
|---|---|---|
| Collector.AttachSoundness | src/collectors/orderbook_manager.rs:373-522 | In every run - arrivals lost, repeated, reordered; evictions; failed, aborted and retried attaches; removals mid-attach - with quiet sweeps, a book that is not Live is a gap-free stretch of the history folded onto its last snapshot, and exact at its own id up to exactly the horizon those folds leave |
| Collector.SoundRun | src/collectors/orderbook_manager.rs:571-676 | The invariant behind it: everything buffered comes from the history, a non-Live book stems from its snapshot, and the live loop is busy only with Live or delisted symbols |
| Collector.FromSnapshotIsExact | src/collectors/orderbook_manager.rs:706-716 | A book folded from a snapshot is exact up to the horizon its folds leave, which lies within the snapshot's, and no longer than the depth limit |
| Collector.ExtendByOne | src/collectors/orderbook_manager.rs:621-643 | One more spanning diff, of this attempt or of a retry after an aborted one, still yields one gap-free stretch from the snapshot, with the horizon it leaves |
| Collector.AttachStepSound | src/collectors/orderbook_manager.rs:621-643 | Each diff of an attach keeps that invariant, or breaks the attach off and leaves it as it is |
| Collector.LiveSelfHealing | src/collectors/orderbook_manager.rs:1072-1125 | In every run with in-order, lossy arrivals and quiet sweeps the live book is the attached one, exact up to the horizon of its attach, plus the received diffs; and any price it gets wrong - held, or missing up to the horizon those diffs leave - was touched by a diff lost since the attach and by none received after that loss |
| Collector.OrderedRun | src/collectors/orderbook_manager.rs:1094-1120 | The queueing invariant behind it: what was consumed, drained and buffered forms one rising stretch of the stream, across attach, live drains and evictions |
| Collector.LiveHeals | src/collectors/orderbook_manager.rs:1111-1112 | In every such run the live book is exact again, up to the horizon its applications leave, once each price listed by a diff missed since the attach has been listed by a later applied one; and exact all along if none was missed |
| Healing.SelfHealing | src/collectors/orderbook_manager.rs:1103-1120 | For any in-order subsequence of the history, a price the trimmed book is wrong about was touched by a lost diff and by no later received one |
| Healing.WrongNeverGrows | src/collectors/orderbook_manager.rs:721-767 | A received diff adds no wrong price and rights every price it lists, whatever was lost before |
| Healing.ReceivedDiffHeals | src/collectors/orderbook_manager.rs:773-807 | The same for one side, trim included |
| Healing.HealsCompletely | src/collectors/orderbook_manager.rs:1111-1112 | Once every price touched by a lost diff has been listed again, the live book is exact again |
| Healing.UntouchedStretch | src/collectors/orderbook_manager.rs:1111-1112 | A price listed by no diff of a stretch has the same true quantity at both of its ends |
| Runs.LosslessAttach | src/collectors/orderbook_manager.rs:592-672 | In every run with gap-free arrivals a drained batch is contiguous and the attempt, left to itself, ends in one of three ways: resnapshot of an older snapshot, harmless retry when all is covered, or success with everything from the first uncovered diff applied |
| Runs.AttemptDecided | src/collectors/orderbook_manager.rs:571-676 | In the state machine the same decisions, of the drained batch, give the phase and task an attempt left to itself ends in, and the stretch its book moves on by |
| Runs.LosslessNeverAborts | src/collectors/orderbook_manager.rs:621-633 | In such runs an attach under way never meets a break, whatever happens between its steps |
| Runs.FinishIsTryAttach | src/collectors/orderbook_manager.rs:571-676 | The steps of an attempt, with nothing in between, amount to the attempt as specified: same book, same outcome |
| Runs.FinishIsRun | src/collectors/orderbook_manager.rs:617-643 | And they are one run of the state machine, a step per diff |
| Runs.ExactBeforeLive | src/collectors/orderbook_manager.rs:1095-1120 | However the sweep lands, between whatever steps, a book that is not Live is exact up to the horizon its own applications leave as long as each diff applied to it, by the attach or the live loop, spans its id |
| Spans.RightBeforeLiveIff | src/collectors/orderbook_manager.rs:621-643 | For every run, with a positive depth limit: whenever the book is not Live it is exact up to its recorded reach in every exchange with the same ids, if and only if every diff applied to it, by the attach or the live loop, spans its id |
| Spans.OutOfSpanIsWrong | src/collectors/orderbook_manager.rs:721-767 | The first diff applied out of span at once makes the book wrong, for every reach, in some exchange with the same ids |
| Spans.TwinRun | src/collectors/orderbook_manager.rs:571-676 | What a run does - evictions, normalising, bridge, chain test, phases - depends on the ids and event times of the diffs alone, never on what they list |
| Spans.TwinNormalized | src/collectors/orderbook_manager.rs:678-703 | In particular which diffs of a batch survive, and in which order |
| Runs.QuietRunsApplyInSpan | src/collectors/orderbook_manager.rs:621-633 | With quiet sweeps every application before Live spans the book's id |
| Runs.PushContiguous | src/websocket/connection_manager.rs:733-764 | On gap-free arrivals the ring is always a contiguous stretch ending with the newest |
| Runs.DrainedIsLatest | src/websocket/connection_manager.rs:733-764 | In every run a drain, by the attach or the live loop, hands over the latest part of what arrived since the drain before: contiguous, in arrival order, within capacity, empty only if nothing arrived or the capacity is zero |
| Retries.AbortIsFinal | src/collectors/orderbook_manager.rs:621-633 | In every run with in-order arrivals and quiet sweeps, once an attach breaks off with a book, then until another snapshot or a removal the book stays as it is and everything buffered or still to come starts past its id |
| Retries.DoomedIsTooOld | src/collectors/orderbook_manager.rs:595-607 | In that state an attempt on a non-empty batch finds the snapshot too old and a new one is asked for; an empty one changes nothing |
| Retries.AdvancingRun | src/collectors/orderbook_manager.rs:617-633 | The invariant behind it: past the bridge the last id applied ends a diff of the history and lies before the end of the next |
| Retries.SnapshotInReach | src/collectors/orderbook_manager.rs:425-514 | Whatever a symbol that is not Live waits for - a fetch, its rows, a bridge that does not come, an attempt about to start - some continuation brings it to any new snapshot or to a finished attach |
| Retries.BreakIsReached | src/collectors/orderbook_manager.rs:621-633 | Every exchange with three diffs, and any buffer of two, admits an in-order run whose attach meets a break with a book |
| Runs.BookIsHeldIff | src/collectors/orderbook_manager.rs:425-514 | In every run, a syncing or Live symbol and a manager in mid-work have the book throughout if and only if no removal lands between the stored snapshot and the step to Live |
| Runs.LiveHasBookIff | src/collectors/orderbook_manager.rs:488-495 | In every run, a Live symbol has a book and an idle manager throughout if and only if every step to Live finds the book there |
| Runs.SweepCanOrphan | src/collectors/orderbook_manager.rs:811-852 | Every exchange admits a run, respecting the two-hour idle test, that ends Live without a book |
| Runs.ListedWhileFetching | src/collectors/orderbook_manager.rs:811-826 | A book left by a snapshot whose rows could not be written goes stale while fetches fail, and is listed for removal |
| Runs.ListedIsStale | src/collectors/orderbook_manager.rs:811-826 | A sweep lists a symbol exactly when it holds a book unchanged for more than two hours, or had listed it before |
| Runs.OrphanStays | src/collectors/orderbook_manager.rs:516-519 | Nothing but delisting ends that state, since the sweep lists only symbols with a book |
| Runs.StaleListingBreaksSoundness | src/collectors/orderbook_manager.rs:1080-1120 | A run in which the sweep removes a symbol two hours quiet while the live loop has it listed ends syncing with a book that is exact for no horizon |
| Runs.FirstAttach | src/collectors/orderbook_manager.rs:425-503 | From a fresh symbol every exchange admits a run to a successful attach: the snapshot where its first diff starts, with that diff applied |
| Manager.SymbolManager.constructor | src/collectors/orderbook_manager.rs:388-392 | A symbol starts without a book, initializing |
| Manager.SymbolManager.ApplySnapshot | src/collectors/orderbook_manager.rs:539-562 | Installs a fresh book holding the response's levels under its id and the current time; the phase is untouched |
| Manager.SymbolManager.ApplyOne | src/collectors/orderbook_manager.rs:706-716 | One diff folds into the book if there is one; without a book nothing happens |
| Manager.SymbolManager.TryAttachToStream | src/collectors/orderbook_manager.rs:571-676 | Empties the ring and changes book, phase and outcome exactly as the specified attempt does, the drained batch not being put back |
| Manager.SymbolManager.Follow | src/collectors/orderbook_manager.rs:617-651 | Applies from the bridge to the first broken link, and says which of the two ends it met |
| Manager.SymbolManager.SyncStep | src/collectors/orderbook_manager.rs:488-514 | A successful attempt makes the symbol Live, one on a too old snapshot sends it back, any other leaves the phase |
| Manager.ListLive | src/collectors/orderbook_manager.rs:1080-1092 | Over any symbols, the live loop lists exactly the Live ones |
| Manager.SymbolManager.LiveUpdate | src/collectors/orderbook_manager.rs:1095-1120 | A listed symbol's drained diffs are all folded in, unchecked and in order, whatever its phase is by then |
| Manager.ListStale | src/collectors/orderbook_manager.rs:815-826 | Over any symbols, the sweep lists exactly those holding a book idle for more than two hours, a clock that ran backwards counting as no time |
| Manager.SymbolManager.RemoveSymbolState | src/collectors/orderbook_manager.rs:845-852 | Book and phase are dropped |
| Attach.BridgeRulesAreTheSpanTest | src/collectors/orderbook_manager.rs:74-90 | On described diffs the two bridge rules together hold exactly when the snapshot id lies in the diff's span before its end |
| Attach.FindBridge | src/collectors/orderbook_manager.rs:74-90 | Returns the first bridging diff and its rule, or nothing exactly when none bridges |
| Attach.AppliedIsSlice | src/collectors/orderbook_manager.rs:617-643 | On any sub-multiset of the history, in any order, what an attempt applies is a contiguous stretch of the history that continues the book's id, ending with the newest drained diff when it reports success |
| Attach.ChainIsSlice | src/collectors/orderbook_manager.rs:621-633 | Historical diffs linked by pu are a contiguous stretch of the history |
| Attach.AttachKeepsExact | src/collectors/orderbook_manager.rs:571-676 | Successful, aborted or idle, an attempt leaves an exact book exact at the id it moved to |
| Attach.AttachOutcomes | src/collectors/orderbook_manager.rs:592-672 | On a gap-free stretch there are exactly three outcomes, and a break mid-attach is not one of them |
| Attach.AttachDecided | src/collectors/orderbook_manager.rs:571-676 | For every batch from the history, holed, repeated or shuffled: a new snapshot is asked for exactly when the oldest diff starts past the snapshot; with none over the snapshot the attempt is simply repeated; otherwise it succeeds exactly when nothing of the history is missing from the diff over the snapshot to the newest drained, and breaks off when something is |
| Attach.AppliedUpToHole | src/collectors/orderbook_manager.rs:617-643 | And it applies the history from the diff over the snapshot up to the first one missing from the batch |
| Attach.NoneBridges | src/collectors/orderbook_manager.rs:74-90 | If nothing in a gap-free stretch bridges a snapshot that is not too old, the snapshot covers it all |
| Normalize.NormalizeForAttach | src/collectors/orderbook_manager.rs:678-704 | Sort, keep the latest event per u in a map, collect its values in any order, sort: always the canonical form |
| Normalize.SortByWireIds | src/collectors/orderbook_manager.rs:683-684 | A permutation of the batch ordered by (U, u, E), stably |
| Normalize.Dedup | src/collectors/orderbook_manager.rs:686-699 | Walking the sorted batch keeps, for each u, the first arrival among the unbeaten diffs |
| Normalize.InsertByFinal | src/collectors/orderbook_manager.rs:701-702 | Inserting by u keeps the output rising and adds just that diff |
| Normalize.NormalizedContents | src/collectors/orderbook_manager.rs:678-703 | Every u of the batch once, in rising order, by a diff of the batch with the latest event time, and the smallest U among those |
| Normalize.FirstOfTies | src/collectors/orderbook_manager.rs:683-699 | Of copies with the same u, E and U the first to arrive is kept |
| Normalize.KeepWins | src/collectors/orderbook_manager.rs:686-699 | Arrival by arrival and in sorted order the same winners are found |
| Normalize.ArrivalOrderIrrelevant | src/collectors/orderbook_manager.rs:678-704 | Rearranging a batch changes no key of the result, and nothing at all when equal keys mean equal diffs |
| Normalize.RisingIsNormalized | src/collectors/orderbook_manager.rs:678-704 | A batch already in rising order comes back as it is |
| Normalize.NormalizingTwice | src/collectors/orderbook_manager.rs:678-704 | Normalising is idempotent |
| Normalize.RisingUnique | src/collectors/orderbook_manager.rs:701-702 | Strictly rising sequences with the same members are equal, so hash order cannot show |
| Ring.RingBuffer.constructor | src/websocket/connection_manager.rs:739-740 | An empty buffer with its capacity and age limits |
| Ring.RingBuffer.BufferDepthUpdate | src/websocket/connection_manager.rs:733-764 | Appends, evicts over capacity, then evicts what is too old but never the last one |
| Ring.RingBuffer.Drain | src/websocket/connection_manager.rs:192-200 | Hands over everything and leaves the buffer empty |
| Ring.PushIsSuffix | src/websocket/connection_manager.rs:733-764 | What survives a push is a suffix ending with the new arrival, within capacity; everything evicted was over capacity or stale, and the front is not stale unless it is alone |
| OrderBook.LastListedCounts | src/collectors/orderbook_manager.rs:539-552 | Of a price listed twice in a response the last quantity is held, zero included |
| OrderBook.Orderbook.constructor | src/collectors/orderbook_manager.rs:539-560 | Loads the response's levels side by side under its id and the current time |
| OrderBook.Orderbook.ApplyUpdate | src/collectors/orderbook_manager.rs:721-767 | Both sides take the listed levels in order, zero deleting, and the id becomes u |
| OrderBook.Orderbook.TrimToDepth | src/collectors/orderbook_manager.rs:773-807 | Each side keeps its best levels, the id untouched |
| OrderBook.Orderbook.Receive | src/collectors/orderbook_manager.rs:706-716 | Apply then trim |
| OrderBook.TrimSide | src/collectors/orderbook_manager.rs:775-789 | Sorting and taking a prefix is repeated removal of the worst level |
| OrderBook.SortPrices | src/collectors/orderbook_manager.rs:779-783 | The side's prices, each once, best first |
| OrderBook.PrefixIsTop | src/collectors/orderbook_manager.rs:785-788 | The first depth sorted prices are the best depth levels |
| OrderBook.LoadedSnapshot | src/collectors/orderbook_manager.rs:539-560 | A response spelling out the best true levels loads as the snapshot the exchange model defines |
| Ladder.ApplyLevelsAt | src/collectors/orderbook_manager.rs:721-762 | A truthful update makes every listed price right whatever was there, and touches no other |
| Ladder.LastWordCounts | src/collectors/orderbook_manager.rs:721-762 | Whatever an update says, true or not, the last level listed at a price counts: zero deletes, anything else replaces |
| Ladder.TrimIsTop | src/collectors/orderbook_manager.rs:773-807 | The trim keeps the best depth levels, unchanged, and all when there are no more |
| Ladder.TopUnique | src/collectors/orderbook_manager.rs:773-807 | There is only one such map |
| Ladder.DroppedIsBeyond | src/collectors/orderbook_manager.rs:785-788 | A level the trim drops lies beyond the horizon it leaves |
| Ladder.TrimExact | src/collectors/orderbook_manager.rs:773-807 | Trimming keeps a side exact, at the narrower horizon |
| Ladder.TouchIsTrue | src/collectors/orderbook_manager.rs:710-712 | One held level within the horizon makes the best price the true one |
| Ladder.TouchCertifiedIsTrue | src/collectors/orderbook_manager.rs:710-712 | A certified side has the true best price, or is truly empty |
| Ladder.TouchCertifiedExactly | src/collectors/orderbook_manager.rs:710-712 | The touch is right for every truth the side's knowledge allows if and only if it is certified |
| Exchange.SpanTestIsExact | src/collectors/orderbook_manager.rs:721-767 | Applying a diff is right for every exchange it describes if and only if the book's id lies within its span |
| Chains.ChainedIffAlwaysRight | dashboard/backend/server.py:1433-1456 | Replaying any in-order part of a history onto a true book is right for every exchange the tape describes if and only if the applied diffs chain onto the book's id and onto each other |
| Chains.WrongExactlyWhereUnlisted | dashboard/backend/server.py:716-727 | Replaying an unbroken chain onto any book, true or not, up to any horizon: the result is wrong at a price exactly when the book was and no applied diff lists it |
| Chains.ExactIffErrorsListed | dashboard/backend/server.py:716-727 | So it is exact if and only if the diffs list every price the book was wrong about |
| Chains.ChainedIffDecidedBySeed | dashboard/backend/server.py:1433-1456 | For every exchange the tape describes and every starting book that is how the result is decided, if and only if the applied diffs chain onto the book's id and onto each other |
| Chains.CutMisleads | dashboard/backend/server.py:1444-1448 | Any cut no diff of the tape spans leaves room for an exchange the tape describes and the replay gets wrong |
| Exchange.ApplyDiffExact | src/collectors/orderbook_manager.rs:706-716 | One diff whose span holds the book's id keeps the book exact, at the horizon its trim leaves |
| Exchange.SnapshotExact | src/collectors/orderbook_manager.rs:530-562 | A top-of-book snapshot is exact up to its worst level |
| Exchange.FoldExact | src/collectors/orderbook_manager.rs:617-643 | A gap-free stretch keeps a book exact and moves it to the last id |
| Exchange.TrimRefinement | src/collectors/orderbook_manager.rs:706-716 | From a snapshot through any gap-free stretch: each side within the depth limit, the horizon moving only towards the touch, and up to it the trimmed book, the untrimmed replay and the truth agree; a certified touch is the true one |
| Exchange.ReachNarrows | src/collectors/orderbook_manager.rs:773-807 | Each applied diff can only narrow the horizon |
| Exchange.FoldBounded | src/collectors/orderbook_manager.rs:769-772 | No side ever exceeds the depth limit |
| Exchange.TrimmedTouchCanBeWrong | src/collectors/orderbook_manager.rs:710-712 | For every positive depth, a gap-free trimmed book that quotes a wrong touch |
| Rebuild.ReconstructOrderbook | dashboard/backend/server.py:659-732 | Seeds from the largest snapshot id over all files, gives up exactly when a row of that seed does not read, else replays the day, counting rows, breaks, first break, tape span, applied diffs and crossings, and reports the best prices |
| Rebuild.NewestSnapshot | dashboard/backend/server.py:672-680 | The largest readable snapshot id over all files: some row has it and none a larger one; none exactly when no row has an id |
| Rebuild.MaxIdIsLargest | dashboard/backend/server.py:672-680 | That the fold over the rows is that maximum |
| Rebuild.LoadSeed | dashboard/backend/server.py:681-683 | The levels of the chosen snapshot's rows in order, or nothing if one of them does not read |
| Rebuild.LastRowCounts | dashboard/backend/server.py:681-683 | Of the chosen snapshot's rows at one price the last counts |
| Rebuild.ReplayDay | dashboard/backend/server.py:690-727 | The pass over the day's diffs |
| Rebuild.BestPrice | dashboard/backend/server.py:730-731 | The best price of a side, or nothing when it is empty |
| Rebuild.BreaksCountHoles | dashboard/backend/server.py:690-715 | On an in-order part of the history the break count is the number of maximal missing runs strictly inside it |
| Rebuild.ValidatorCertificate | dashboard/backend/server.py:690-729 | Seeded with a book that is exact up to a horizon: no breaks, a first row starting no later than the snapshot and fewer diffs than the limit make the rebuilt book exact at the last id up to that horizon, and no crossing is reported if the exchange never crosses |
| Reports.ReportIs | dashboard/backend/server.py:716-727 | For any rows: those past the snapshot are taken in order until the limit's worth has been read in full; the book is the seed with the levels of the taken ones, torn ones up to the tear; the applied figure counts those read in full and the crossing figure those of them after which some bid was strictly above some ask |
| Reports.BreaksAre | dashboard/backend/server.py:706-715 | For any rows: those whose ids do not read are passed over, the break figure counts those of the others that do not continue the one before, and the first break names the first of them by what was expected and what came |
| Reports.SpanIs | dashboard/backend/server.py:693-705 | For any rows: all are counted, and the span runs from the first stamped row to the last |
| Reports.FirstBreakNamesFirstHole | dashboard/backend/server.py:711-714 | On a tape of a true history the first break is the u before and the pu after the first missing run |
| Reports.DayToBook | dashboard/backend/server.py:659-732 | From files to book: true levels in the rows with the largest id, no breaks, a first row that starts no later, and fewer diffs than the limit make the rebuilt book exact as far as those rows reach |
| Rebuild.CoveredRowSuffices | dashboard/backend/server.py:711-717 | A row the snapshot covers implies such a first row |
| Rebuild.NoBreaksCertifyIff | dashboard/backend/server.py:690-729 | Given no breaks and fewer diffs than the limit, the book rebuilt from a true seed is right for every exchange the tape describes if and only if the first row starts no later than the snapshot; other seeds are `Seeds.NoBreaksSeedDecidesIff` |
| Rebuild.RebuildsIffChained | dashboard/backend/server.py:716-727 | Breaks or not, the book rebuilt from a true seed is right for all of them if and only if the diffs past the snapshot chain onto it and onto each other; other seeds are `Seeds.ChainedIffSeedDecides` |
| Rebuild.ContiguousReplay | dashboard/backend/server.py:716-727 | Replaying a contiguous tape that starts no later than the snapshot keeps a book that was exact up to a horizon exact up to it, at the later of the two ids |
| Rebuild.SeedIsExact | dashboard/backend/server.py:670-683 | A seed pieced together from true rows of one id (or, for a seek, one stamp), from any number of files, is exact where they reach |
| Rebuild.SoundNotCrossed | dashboard/backend/server.py:685-688 | An exact book of a never-crossing exchange is not crossed |
| RebuildAt.ReconstructAt | dashboard/backend/server.py:1393-1456 | Picks the newest usable snapshot stamp - some row bears it, none a later one - seeds from its rows, giving up exactly when one does not read, and replays the opened files up to the instant |
| RebuildAt.NewestStampIsLatest | dashboard/backend/server.py:1413-1417 | That the fold over the rows is the stamp, no later than the instant, with the largest timestamp and among those the largest id |
| RebuildAt.StampNotAfter | dashboard/backend/server.py:1413-1417 | The stamp chosen is never later than the instant |
| RebuildAt.Replay | dashboard/backend/server.py:1433-1455 | The pass over the files whose names overlap the window |
| RebuildAt.SkippingLosesNothingIff | dashboard/backend/server.py:1422-1437 | The seek replays the very rows a full scan would if and only if no closed file holds a relevant one |
| RebuildAt.SkippingIsExactIff | dashboard/backend/server.py:1422-1437 | With rows filed by the hour of their stamp, a seek replays the very rows of a full scan if and only if every row of an hour that ended by the snapshot's stamp is covered by the snapshot |
| RebuildAt.FileSkippingIsExact | dashboard/backend/server.py:1422-1456 | Under those two conditions book and gap flag are those of a full replay |
| RebuildAt.ClockSkewLosesDiffs | dashboard/backend/server.py:1429-1431 | A row of a past hour the snapshot does not cover is dropped |
| Reports.SeekIs | dashboard/backend/server.py:1433-1456 | For any rows: those that count are exactly the ones that read, stamped at or before the instant, and past the snapshot; the book is the seed with their levels, the last id the last one's, and the flag set exactly when one of them does not continue the one before |
| Reports.NothingLaterMatters | dashboard/backend/server.py:1393-1456 | Rows of files and of snapshots stamped after the instant, added or removed anywhere, change neither the snapshot chosen nor the seed, whether it reads, the book, the last id or the flag |
| Reports.FilesToBook | dashboard/backend/server.py:1393-1456 | From snapshot rows and hourly files to a book: with rows filed by the hour, past hours covered and true levels in the rows of the latest stamp, the flag is set exactly when diffs are missing in between; clear, and with a first applied diff that reaches back to the snapshot or none to apply, the book is exact as far as those rows reach |
| RebuildAt.SeekCertificate | dashboard/backend/server.py:1433-1456 | The gap flag is set exactly when diffs are missing between the first and last applied; clear, with a first diff that reaches back to the snapshot, and seeded with a book exact up to a horizon, the book is exact up to that horizon |
| RebuildAt.SeekCertificateIff | dashboard/backend/server.py:1433-1456 | For all rows read, seeded with the true book: right for every exchange the applied diffs describe if and only if the flag is clear and the first applied diff starts no later than the snapshot; other seeds are `Seeds.SeekSeedDecidesIff` |
| RebuildAt.GapFlagMissesJunction | dashboard/backend/server.py:1446-1448 | With the diff right after the snapshot missing the flag stays clear and the book is wrong |
| RebuildAt.LateTapeGoesUnnoticed | dashboard/backend/server.py:711-717 | On the same tape the validator finds no break and rebuilds the same wrong book |
| RebuildAt.HourSpans | src/utils/csv_writer.rs:220-239 | A row's stamp lies within the whole hour its file is named for |
| Seeds.RebuiltWrongIff | dashboard/backend/server.py:681-727 | For any seed and horizon, and diffs past the snapshot that chain onto it: the book the validator rebuilds is wrong at a price exactly when the seed was and none of those diffs lists it |
| Seeds.ChainedIffSeedDecides | dashboard/backend/server.py:681-727 | Below the limit: for every exchange the tape describes and every seed the rebuilt book is exact just when those diffs list all of the seed's errors, if and only if they chain onto the snapshot and onto each other |
| Seeds.NoBreaksSeedDecidesIff | dashboard/backend/server.py:690-729 | Given no breaks, that is so if and only if the first row starts no later than the snapshot |
| Seeds.SoughtWrongIff | dashboard/backend/server.py:1418-1456 | A seek with a clear gap flag and a first applied diff that starts no later than the snapshot is wrong at a price exactly when its seed was and no applied diff lists it |
| Seeds.SeekSeedDecidesIff | dashboard/backend/server.py:1418-1456 | For all rows read: for every exchange the applied diffs describe and every seed the book is exact just when those diffs list all of the seed's errors, if and only if the flag is clear and the first of them starts no later than the snapshot |
| Seeds.WriteCurrentSnapshot | src/collectors/orderbook_manager.rs:869-934 | The book in memory is written out under its own id, every level once, bids then asks, best first; nothing without a book |
| Seeds.WrittenBookLoads | dashboard/backend/server.py:681-683 | Round trip: from among the rows of any other snapshots, those rows load as that very book |
| Seeds.RebuiltFromLive | src/collectors/orderbook_manager.rs:1004-1044 | The validator seeded with the live book of any in-order, lossy run with quiet sweeps, over a tape without breaks that starts no later than it: wrong exactly where the live book was and the tape past it lists nothing, and each such price was touched by a lost diff and by nothing received after it |
| Seeds.SoughtFromLive | src/collectors/orderbook_manager.rs:1004-1044 | The same for a seek with a clear gap flag and a first applied diff that starts no later than that book |
| Seeds.CleanTapeOverDriftedSeed | docs/ORDERBOOK.md:212-215 | A run that loses one diff, snapshots its live book, and tapes a clean continuation from that very id: no break, a clear flag, and a rebuilt book with a bid that is gone |
| CsvBytes.LineStartIsNext | dashboard/backend/server.py:1692-1698 | An offset snaps to the next row start, skipping none |
| CsvBytes.BisectCsv | dashboard/backend/server.py:1701-1724 | Terminates on every file; on a chronological one returns the offset of the first row stamped at or after the target, or the size |
| CsvBytes.ReadForward | dashboard/backend/server.py:1737-1748 | The last n rows up to the first one after the instant |
| CsvBytes.PassIsSuffix | dashboard/backend/server.py:1735-1750 | A pass that fills up, or looks a day back, has the last n prints of the 24 hours |
| CsvBytes.StoppingEarlyIsSafe | dashboard/backend/server.py:1744-1745 | Breaking at the first later row loses nothing of the window |
| CsvBytes.TapeBefore | dashboard/backend/server.py:1727-1752 | On a chronological file the last n prints of the 24 hours up to the instant, whichever lookback stopped; in a day file the last n of all prints up to the instant |
| CsvBytes.DayFileIsCovered | dashboard/backend/server.py:1727-1735 | In a day file those 24 hours hold every print up to the instant |
| CsvBytes.WindowRows | dashboard/backend/server.py:1737-1748 | The rows of a window are, in order, those that start at a data row and are stamped within it, ends included |
| CsvBytes.WalkBack | dashboard/backend/server.py:434-438 | The bytes gathered are the file's end from where more than n newlines are behind |
| CsvBytes.DropPartialLine | dashboard/backend/server.py:439-441 | Dropping a partial first line leaves the complete lines from the next boundary |
| CsvBytes.DropTornRow | dashboard/backend/server.py:442-444 | After it a CSV reader, to which a torn line is a row like any other, sees exactly the complete lines |
| CsvBytes.BlankLinesOnly | dashboard/backend/server.py:445-446 | Of the lines only blank ones are passed over |
| CsvBytes.TailRows | dashboard/backend/server.py:420-446 | The backward walk returns what its stopping point determines, for every block size |
| CsvBytes.EnoughBehind | dashboard/backend/server.py:434-441 | Wherever the walk stops inside the data, at least n complete rows remain after the partial one |
| CsvBytes.TailIsLastRows | dashboard/backend/server.py:420-446 | For n of at least one and every block alignment, that is exactly the file's last n complete rows, all if fewer |
| CsvBytes.TailIsLastRowsIff | dashboard/backend/server.py:434-446 | It is if and only if n is positive, or the gathered bytes hold so few newlines that no row is complete |
| CsvBytes.TailOfZeroIsNotEmpty | dashboard/backend/server.py:446 | A two-line file for which n zero, which no caller passes, returns a row |
| Breaker.CircuitBreaker.constructor | src/rest/client.rs:27-33 | The breaker starts open |
| Breaker.CircuitBreaker.CompareExchange | src/rest/client.rs:43-48 | Stores exactly when the expected value is there, and returns what was |
| Breaker.CircuitBreaker.Trip | src/rest/client.rs:39-53 | From a stale load and against any rival stores the loop ends with the word at the maximum of all of them |
| Breaker.NeverDecreases | src/rest/client.rs:39-53 | Under every interleaving the word never falls, a finished call's until is covered ever after, and a looping call has failed at most once per store |
| Breaker.QuietIsMaximum | src/rest/client.rs:39-53 | When all calls have finished the word is the largest until asked for, or zero |
| Breaker.WordIsMaximumOfStores | src/rest/client.rs:39-53 | At every moment the word is the largest value ever stored |
| Breaker.FailureMovesOn | src/rest/client.rs:50 | A failed exchange strictly lowers until minus the value seen |
| Breaker.LoopNeverStuck | src/rest/client.rs:42-52 | A looping call can always leave, store or fail; it can store exactly when its view is the latest and too low |
| Limiter.RateLimiter.constructor | src/rest/client.rs:79-86 | An empty window with a budget of at least one |
| Limiter.RateLimiter.TryAcquire | src/rest/client.rs:97-119 | The critical section: expire from the front, admit if it fits or nothing is left, else say how long to sleep |
| Limiter.RateLimiter.Acquire | src/rest/client.rs:90-128 | Without competition or further trips the loop ends after at most two sleeps per queued entry, and one more only when it starts under a shut breaker, admitting with the breaker's time run out; and, when sleeps return on time, no later than the breaker's time and one millisecond after the last queued entry leaves the window |
| Limiter.PauseOnTime | src/rest/client.rs:113-118 | A refused caller sleeps until the front entry's window ends, or a millisecond if that is sooner |
| Limiter.SleepEnds | src/rest/client.rs:126 | A sleep ends when its time is up, and not before |
| Limiter.AttemptRefinesLog | src/rest/client.rs:97-112 | The deque decides exactly as the full admission log would: admit iff the requests of the last window leave room or there are none; and it stays the log's live suffix |
| Limiter.ExpireIsRecent | src/rest/client.rs:98-105 | After expiry the deque is exactly the log's entries of the last window |
| Limiter.AdmissionKeepsBudget | src/rest/client.rs:110-112 | An admission keeps every interval within budget |
| Limiter.RunInvariant | src/rest/client.rs:90-128 | Over every run the deque is a time-sorted suffix of the admission log whose dropped entries are older than a window, and every admission was vouched for by a check |
| Limiter.SlidingWindowBound | src/rest/client.rs:90-128 | For any callers, interleaving, clock and trips, every closed interval of the window's length holds at most the budget, or one request |
| Limiter.LateTripOnly | src/rest/client.rs:92-96 | Every admission followed a check that saw the breaker open; it happens under a shut breaker if and only if a trip past the moment of admission came before it, and then the check had not seen it |
| Limiter.TripCanBeOvertaken | src/rest/client.rs:92-112 | That does happen |
| Limiter.SleepMakesProgress | src/rest/client.rs:113-126 | Sleeping as told lowers the measure, although an entry exactly one window old is kept |
| DepthFile.FileBuffer.constructor | src/utils/csv_writer.rs:26-33 | An empty buffer over an empty file |
| DepthFile.FileBuffer.FlushLocked | src/utils/csv_writer.rs:39-58 | Sorted rows are written up to the failure and the rest restored, success meaning all were |
| DepthFile.FileBuffer.PushRow | src/utils/csv_writer.rs:694-721 | A row is buffered, and a full buffer asks for a flush, which is a step of its own |
| DepthFile.RowsConserved | src/utils/csv_writer.rs:39-67 | For any pushes, flushes failing anywhere and final drop of one buffer, file, buffer and loss together hold each id's accepted rows in arrival order; nothing is lost while open; every flush appends a sorted run |
| DepthFile.NothingDroppedOrDoubled | src/utils/csv_writer.rs:39-67 | As multisets, written plus buffered plus lost is accepted |
| DepthFile.FileIsConserved | src/utils/csv_writer.rs:797-805 | Over any number of buffers opened on one file, overlapping or in turn: written plus buffered plus lost is accepted |
| DepthFile.PushIsAccepted | src/utils/csv_writer.rs:694-721 | A row pushed to a buffer still open is accepted and waits at its end |
| DepthFile.FileRunsSorted | src/utils/csv_writer.rs:39-58 | Over all those buffers every flush appends a sorted run, and the file is sorted if and only if the runs ascend |
| DepthFile.LossOnlyAtFailingDrop | src/utils/csv_writer.rs:61-67 | Rows are given up only by a drop whose own flush fails among them |
| DepthFile.LossIsTheUnwrittenTail | src/utils/csv_writer.rs:61-67 | A drop loses rows exactly when its own flush fails inside the buffer, and then exactly the sorted rows from the failing one on, those before it being written |
| DepthFile.FlushStopsAtFailure | src/utils/csv_writer.rs:39-58 | A flush writes the sorted rows up to the one whose write fails and keeps that one and the rest |
| DepthFile.SortIsStable | src/utils/csv_writer.rs:41-46 | Sorting sorts and keeps equal ids in order |
| DepthFile.FileSortedIffRunsAscend | src/utils/csv_writer.rs:39-58 | The file is sorted as a whole if and only if no flush wrote an id above a later flush's |
| DepthFile.InOrderPushesSortFile | src/utils/csv_writer.rs:694-731 | Rows pushed in id order give a sorted file whatever fails |
| Tracker.SymbolSetTracker.constructor | src/collectors/symbol_discovery.rs:222-227 | The initial set is tracked, without strikes |
| Tracker.SymbolSetTracker.Observe | src/collectors/symbol_discovery.rs:238-268 | The loops compute the specified new sets and change |
| Tracker.LastTwoResults | src/collectors/symbol_discovery.rs:238-268 | Tracked is the union of the last two fed results, on strike the earlier minus the later |
| Tracker.ChangeClosedForm | src/collectors/symbol_discovery.rs:238-268 | Removed is what two results in a row miss and the one before had; added is what the two before miss |
| Tracker.SkippedCyclesDoNotCount | src/main.rs:430-447 | In the loop the closed form holds over the fed results; failed and refused cycles change nothing |
| Tracker.Discovery.constructor | src/main.rs:415 | Nothing delisted, nothing pending |
| Tracker.Discovery.Announce | src/main.rs:461-465 | Added symbols stop being delisted and are stamped as new |
| Tracker.Discovery.Retire | src/main.rs:480-483 | Removed symbols are no longer new and become delisted |
| Tracker.Discovery.Tick | src/main.rs:430-492 | One cycle of the loop: refuse, or observe, announce and retire |
| Tracker.LifecycleIsExact | src/main.rs:437-483 | Delisted is always ever-tracked minus tracked; pending is always the tracked symbols new since the start or relisted |
| Tracker.SmallLossIsFed | src/main.rs:437 | A result missing at most a tenth of the tracked set is always fed |
| Tracker.RefusedIff | src/main.rs:437 | Of results that add nothing exactly those missing more than a tenth are refused |
| Tracker.FloorBoundsRemovals | src/main.rs:437-447 | A cycle that is not refused removes at most a tenth of the tracked set plus what it added |
| Buckets.BucketLog.constructor | src/collectors/rest_collector.rs:33-51 | Nothing recorded |
| Buckets.BucketLog.IsNewBucket | src/collectors/rest_collector.rs:59-67 | True and recorded exactly for a bucket above the last |
| Buckets.BucketLog.Store | src/collectors/rest_collector.rs:540-556 | A new bucket is recorded, then written if the disk takes it |
| Buckets.BucketLog.CollectMarkPriceKlines | src/collectors/rest_collector.rs:531-557 | All but the last row, malformed ones passed over |
| Buckets.BucketLog.CollectTakerRatio | src/collectors/rest_collector.rs:729-750 | All rows |
| Buckets.PollTakes | src/collectors/rest_collector.rs:533-556 | Whatever rows a kline poll returns and whatever is recorded: it accepts, in order, exactly the well-formed rows before the last that are newer than the last bucket recorded and than every earlier one of the poll |
| Buckets.OpenBarIsLeft | src/collectors/rest_collector.rs:534-535 | A last bar no other row bears is not recorded |
| Buckets.FullPollIsPoll | src/collectors/rest_collector.rs:531-557 | On the four latest minutes, well formed and in order, the collector's method accepts what the poll of the next statements does |
| Buckets.FullRatioPollIsPoll | src/collectors/rest_collector.rs:729-750 | And so it does on eight ratio buckets |
| Buckets.NeverRepeated | src/collectors/rest_collector.rs:59-67 | Whatever is polled, accepted buckets strictly increase |
| Buckets.ExactlyOnceIff | src/collectors/rest_collector.rs:531-557 | Polls in time order accept the full consecutive series if and only if none is further from the one before than a poll reaches |
| Buckets.PollSpacing | src/collectors/rest_collector.rs:14-22 | That is three minutes for klines and eight buckets for ratios |
| Buckets.RefusedOnceIsGone | src/collectors/rest_collector.rs:553-556 | A bucket refused once and returned by two more polls is not written, though the disk would take it |
| Buckets.OneAttemptDecides | src/collectors/rest_collector.rs:553-556 | A recorded bucket is accepted once however often it is polled again, and is on disk if and only if that one write attempt succeeded, whatever the disk takes later |
| TradeWindow.TradeDedupWindow.constructor | src/websocket/message_handler.rs:20-24 | An empty window |
| TradeWindow.TradeDedupWindow.Insert | src/websocket/message_handler.rs:29-40 | True exactly when the id is not among the last 5000 accepted, with set and queue kept in step |
| TradeWindow.AcceptedIsSpread | src/websocket/message_handler.rs:29-40 | Accepted ids closer than a window differ |
| TradeWindow.RepeatsAreFarApart | src/websocket/message_handler.rs:29-40 | Two equal accepted ids have 5000 distinct other accepted ids between them |

## Left out

- Fixed-width ids and clocks: u64 and i64 values are unbounded here, so saturation and the `snapshot_u + 1` overflow at the top of the range are not modelled.
- Floats: prices are ticks and quantities naturals; parsing, formatting to twelve decimals, the bit-pattern keys and a diff or snapshot that fails to parse part-way in the collector are left out (the dashboard's partly decoded rows are modelled).
- Cooldowns, backoff, bridge timeout durations and the 500 ms ticks are left to nondeterministic steps; the snapshots written after the step to Live and periodically change no state and are not steps of the machine (what they write is `Seeds.WriteCurrentSnapshot`; a failed bridge snapshot write ends the manager, which is a run in which it never acts again).
- Removing a symbol's book and its phase is one step here; the code takes two map removals (`src/collectors/orderbook_manager.rs:846-847`), between which a step of the manager or the live loop can land and see the phase without the book.
- One symbol is modelled; the maps keyed by symbol, and messages for symbols without a buffer, are left out.
- The message handler's own copy of the diffs to the tape, and which file of the day a row is written to beyond the hour rule.
- The midnight-handoff check and the per-metric validators: single-row or single-file comparisons.
- `Spans.RightBeforeLiveIff`: a depth limit of zero, under which a book holds nothing and an application out of span can leave it right.
- `CsvBytes.TailRows`: CSV quoting and decoding are left out; a blank line is passed over as the CSV reader does, and `NoBlankLines` is needed for the last-n statement.
- `CsvBytes.BisectCsv`: the timestamp of a line is an arbitrary function of it; on a file that is not chronological only termination and the range are promised.
- `Breaker.NeverDecreases`: the clock reading and the duration arithmetic that give `until` are inputs.
- `Limiter.RateLimiter.Acquire`: progress is stated without competing admissions; with them a caller can be overtaken indefinitely.
- `DepthFile.RowsConserved`: the order within an id is promised for one buffer's life; over several buffers on one file `DepthFile.FileIsConserved` promises the rows, not their order.
- `DepthFile.FileBuffer.FlushLocked`: a row write is atomic and the bytes behind the writer's own buffer are not modelled.
- `Tracker.SymbolSetTracker.Observe`: the sorted order in which additions and removals are logged.
- `Buckets.ExactlyOnceIff`: rows are well formed and the exchange returns the full number of buckets; fewer (a newly listed symbol) or gaps in its answer are outside.
- Sockets, TLS, HTTP, JSON, proxies, retries, request weights, the gap registry, the stats exporter, the frontend and configuration.
