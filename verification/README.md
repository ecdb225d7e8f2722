# crypto-analysis ingestion pipeline, in Dafny

This project models the ingestion core of `create_session.py`. A session row is created
for the ETHUSDT ticker. The exchange's most recent trades are backfilled in one bulk
insert. One-second candlesticks are then paged from the second of the first backfilled
trade until the page pointer reaches the second of the last one. After that, live
trade and kline events are filtered against the two boundary markers the backfill
returned (the last trade id and the last candle open time) and stored in batches of 30.
On the way out the session's begin and end times are written from the trade rows
inserted under it.

Everything a run writes goes through one database transaction. The connection is not
in autocommit mode and commits only when its block exits normally. Only a shutdown
(`CancelledError`) is caught around the startup stages. So an empty trade list, an
empty page or an empty paging range propagates out of the block, and the run's inserts
and session bounds are all rolled back. `Run.store` is therefore the log of rows the
run inserted, and `Run.committed` says whether they became durable
(`Pipeline.RunCommitsExactlyOnShutdown`). The model's store holds one run's rows; the
real tables are shared by all sessions and read back filtered by session id.

Modules, one per stage of the program:

- `Wrappers`: `Option` and `Result`.
- `Records`: the rows of the `trades` and `klines_1s` tables, the store, the batch size
  and ticker constants, and the error causes. Each Python exception the core can raise
  becomes an `Error` variant:
  - `EmptyTradeList`: `trades[0]` on an empty response.
  - `EmptyPage`: `klines[-1]` on an empty page.
  - `NoPageRequested`: `klines` read before assignment, when the paging loop never ran.
  - `StillPaging`: shutdown arrived while the loop was still paging.
  - `NoSessionTrades`: `timestamps[0]` with no trade rows.
- `RecentTrades`: `get_recent_trades`.
- `Candlesticks`: `get_candlesticks`. The exchange is a page oracle from start time to
  page. The paging loop is fuel-indexed: `fuel` is the number of page requests that
  complete before shutdown.
- `LiveStream`: `ws_data`, as a pure step function folded over the dequeued events. A
  key an event lacks is `None`. `Dispatch` looks keys up in the order the code does, so
  a missing key skips the event and the flush check.
- `Sessions`: `create_session` and `update_session_timestamps`.
- `Pipeline`: `main`'s sequence of stages, its `finally` clause and the commit or
  rollback of the connection block.

The model follows the code as written:

- A page whose last open time does not advance is requested again, forever if the
  exchange keeps answering with the same page; nothing
  reports a stall (`Candlesticks.StalledPageLoopsForever`).
- An empty page is an `IndexError`, not the end of the backfill.
- The candle pages are inserted all at once after the loop, not page by page. A
  shutdown while paging loses them all (`Pipeline.EarlyStopStoresNoCandles`).
- An empty page and a shutdown while paging are different failures: the first escapes
  and rolls the run back, the second is caught and commits the backfilled trades
  (`Candlesticks.PaginateFailsExactly`, `Pipeline.RunCommitsExactlyOnShutdown`).
- Each page request starts at the previous page's last open time. With an exchange
  whose start time is inclusive, that candle is stored twice
  (`Candlesticks.SeamCandleStoredTwice`).
- The trade boundary is the id of the last listed trade, not the highest id.
- The boundary markers are never advanced during the live stage. A replayed trade is
  stored twice, and so is every update of a still-open candle
  (`LiveStream.ReplayedTradeKeptTwice`, `LiveStream.OpenCandleUpdatesKeptAll`).
- Shutdown cancels the live loop. The pending batch, fewer than 30 rows, is discarded
  rather than drained (`LiveStream.Shutdown`, `Pipeline.RunStoresWholeBatches`).
- The session bounds are the first and the last trade time read back, not the minimum
  and the maximum. They agree when the times are sorted
  (`Sessions.SortedTimesGiveExtremes`).
- A session without trade rows makes finalization raise instead of doing nothing.
- Nothing of a run that fails during startup, other than by a shutdown, is durable.

## Model

| member | source | states |
|---|---|---|
| RecentTrades.RowOf | create_session.py:36-37 | a backfilled trade row belongs to the session, has no buyer or seller order id, and keeps every field of the exchange's trade (the trade can be read back from the row) |
| RecentTrades.GetRecentTrades | create_session.py:33-43 | fails exactly when the response is empty, with that cause; otherwise one row per trade in response order carrying that trade and the session id, and the returned triple is the first row's time, the last row's time and the last row's id |
| RecentTrades.LastIdIsHighest | create_session.py:43 | for a response in ascending id order, the stored rows are in strictly increasing id order and the returned last id bounds every backfilled id |
| RecentTrades.BackfillTimesBracketRows | create_session.py:43 | for a response whose times never decrease, every backfilled row's time lies between the returned first and last times |
| Candlesticks.RowOf | create_session.py:54-56 | a backfilled candle row belongs to the session, has no first or last trade id, and keeps every field of the exchange's candle |
| Candlesticks.TruncToSecond | create_session.py:48-49 | the result is a whole second, truncated toward zero: for non-negative times the largest whole second not after the time, for negative ones the smallest not before it |
| Candlesticks.Paginate | create_session.py:52-58 | the loop fails only if it started below the target, with an empty page or still running after the allowed requests (which of the two is pinned down by Candlesticks.PaginateFailsExactly); when it finishes it made no more requests than allowed, requested pages exactly when the pointer started below the target, made its first request at the pointer, left the pointer at or past the target, and collected the rows of the answered pages in request order |
| Candlesticks.PaginateIsChain | create_session.py:52-58 | the requests of a finished pagination form a chain: the first at the start, each next one at the previous page's last open time, all below the target and answered non-empty, ending at or past the target |
| Candlesticks.ChainIsPaginated | create_session.py:52-58 | conversely, any such chain of at most the allowed number of requests is exactly what the loop issues, with exactly those rows and that final pointer |
| Candlesticks.FailureHasWalk | create_session.py:52-58 | a failed loop made a walk of requests below the target before failing: an empty page with requests to spare, or every allowed request spent |
| Candlesticks.WalkFails | create_session.py:52-58 | conversely, a walk stopping below the target fails the loop: still running when it spent every allowed request, on an empty page otherwise |
| Candlesticks.PaginateFailsExactly | create_session.py:52-58 | the loop fails on an empty page exactly when a walk below the target with requests to spare reaches an empty page, and is still running exactly when a walk spends every allowed request below the target |
| Candlesticks.AdvancingPagesFinish | create_session.py:52-58 | when every non-empty page ends after its start, target minus pointer requests always suffice: the loop is never still running after them |
| Candlesticks.StalledPageLoopsForever | create_session.py:52-58 | a non-empty page whose last candle opens at the requested time makes the loop run forever while the exchange answers that start time with the same page, whatever the number of requests allowed |
| Candlesticks.SeamCandleStoredTwice | create_session.py:53-58 | with an exchange whose start time is inclusive, any pagination of two or more pages stores two rows with the same open time |
| Candlesticks.GetCandlesticks | create_session.py:46-63 | fails with no page requested exactly when the first trade's second is not before the last trade's, otherwise only on an empty page or a shutdown while paging; on success it requested at most the allowed pages, the first at the first trade's second, returns an open time at or past the last trade's second, and stores the rows of the answered pages in request order |
| Candlesticks.CandlesticksFollowChain | create_session.py:46-63 | a successful backfill's requests form a chain from the first trade's second to the returned open time |
| Candlesticks.CandlesticksFailExactly | create_session.py:46-63 | the candle backfill fails on an empty page exactly when the walk from the first trade's second reaches an empty page below the last trade's second with requests to spare, and is still paging exactly when that walk spends every allowed request below it |
| LiveStream.TradeRowOf | create_session.py:75-76 | a live trade row belongs to the session and keeps every key of the trade event, including the buyer and seller order ids (the event can be read back from the row) |
| LiveStream.KlineRowOf | create_session.py:81-85 | a live kline row belongs to the session and keeps every key of the event's `k` object (the object can be read back from the row) |
| LiveStream.Dispatch | create_session.py:74-87 | appends a trade row exactly for a complete trade event beyond the trade-id boundary, a kline row exactly for a complete kline event beyond the open-time boundary, and the appended row is the one built from the event |
| LiveStream.Step | create_session.py:71-97 | the rows held (stored then pending) grow by exactly the accepted row; the counter stays the pending size and below 30; a rejected or malformed event changes nothing; an accepted event either only adds to the pending batches or, as the 30th, flushes both batches into the store and clears them; the store grows by 0 or 30 rows and only at its end |
| LiveStream.Flush | create_session.py:89-94 | a flush moves every pending row into the store behind the rows already there and leaves both batches and the counter empty; no held row is lost |
| LiveStream.Ingest | create_session.py:70-97 | the loop over the dequeued events; no contract of its own, its properties are those of LiveStream.IngestAccumulates and LiveStream.IngestFlushesWholeBatches |
| LiveStream.IngestAccumulates | create_session.py:70-97 | over any events, the rows held grow by exactly the accepted rows in arrival order (nothing lost, duplicated or reordered), the counter invariant is kept, and stored rows are never removed or changed |
| LiveStream.IngestFlushesWholeBatches | create_session.py:89-94 | the store grows only by whole batches of 30 rows |
| LiveStream.IngestStoresWholeBatches | create_session.py:89-94 | starting from the backfilled store, the live rows kept at shutdown are a whole number of batches, and fewer than 30 accepted rows are lost |
| LiveStream.AcceptedBeyondBoundary | create_session.py:74-87 | every accepted trade row has an id above the trade boundary and every accepted kline row an open time after the kline boundary, all under the session |
| LiveStream.LiveRowsFollowBackfill | create_session.py:66-97 | starting from the backfilled store, the backfilled rows stay in front, stored plus pending rows are the backfill followed by the accepted rows, and every stored live row lies beyond the boundaries under the session |
| LiveStream.ReplayedTradeKeptTwice | create_session.py:74-78 | an accepted trade event delivered twice is held twice |
| LiveStream.OpenCandleUpdatesKeptAll | create_session.py:80-87 | two accepted updates of the same open candle are both held, in arrival order |
| LiveStream.AcceptedTradesIncrease | create_session.py:74-78 | when the exchange pushes trades in increasing id order, the accepted trade rows are in strictly increasing id order |
| LiveStream.Shutdown | create_session.py:142-146 | cancelling the loop keeps every row already flushed to the store and nothing else: no pending row reaches the store, and fewer than 30 are lost |
| Sessions.CreateSession | create_session.py:25-30 | the created session row has the id the store returned, the upper-cased ticker, and no begin or end time |
| Sessions.SessionTradeTimes | create_session.py:102-104 | reads back at most one time per trade row; what it reads back is stated by Sessions.SessionTimesSound, Sessions.SessionTimesComplete, Sessions.FirstSessionTime and Sessions.LastSessionTime |
| Sessions.SessionTimesSound | create_session.py:102-104 | every time read back is the trade time of one of the session's own rows; no other session's row passes the filter |
| Sessions.FirstSessionTime | create_session.py:102-105 | nothing is read back exactly when the session has no trade rows; otherwise the first time read back is that of the session's first row in insertion order |
| Sessions.LastSessionTime | create_session.py:102-106 | the last time read back is that of the session's last row in insertion order |
| Sessions.SessionTimesComplete | create_session.py:102-104 | every trade time stored under the session is among the times read back |
| Sessions.FinalizeSession | create_session.py:100-106 | fails, with that cause, exactly when the session has no trade rows; otherwise keeps id and ticker and sets begin and end to the times of the session's first and last trade rows |
| Sessions.FinalizeOwnRows | create_session.py:100-106 | when every row belongs to the session, the bounds are the times of the first and the last row |
| Sessions.SortedTimesGiveExtremes | create_session.py:100-106 | when the session's times read back never decrease, the bounds written are the minimum and the maximum of its trade times |
| Pipeline.RunSession | create_session.py:109-146 | a run commits only when startup completed or was cut short by a shutdown, and a run whose startup failed inserted no candle |
| Pipeline.Finish | create_session.py:145-146 | the `finally` clause and the end of the connection block; no contract of its own, its commit rule is stated by Pipeline.RunCommitsExactlyOnShutdown |
| Pipeline.RunCommitsExactlyOnShutdown | create_session.py:121-146 | the run commits exactly when startup completed or was cut short by a shutdown; after any other startup error nothing of the run is durable |
| Pipeline.RunWithoutTradesStoresNothing | create_session.py:130-146 | with no recent trades the run stops at startup, inserts nothing, its finalization fails, and nothing is committed |
| Pipeline.RunRowsBelongToSession | create_session.py:130-139 | every trade row a run stores belongs to its session |
| Pipeline.RunFinalizesFromStoredTrades | create_session.py:145-146 | with recent trades, the finalization in `finally` always computes the bounds, keeping the id and ticker: begin is the first backfilled trade's time and end the last inserted trade's time (durable only when the run commits) |
| Pipeline.EarlyStopStoresNoCandles | create_session.py:135-136 | when the candle stage fails or is interrupted, the run inserted exactly the backfilled trades and no candle, and it commits exactly when the cause was a shutdown |
| Pipeline.LiveRowsBeyondBackfill | create_session.py:132-139 | after a full startup, the last backfilled candle is at or past the last backfilled trade's second, the backfilled rows stay in front, and every live trade id is above the backfill's last id and every live candle opens after its last candle |
| Pipeline.RunStoresTradesInIdOrder | create_session.py:132-139 | when the exchange lists and pushes trades in id order, the run's trade rows are in strictly increasing id order: no duplicate and no reordering at the seam |
| Pipeline.RunStoresWholeBatches | create_session.py:138-146 | after a full startup, the live rows inserted beyond the backfill are a whole number of batches, and fewer than 30 accepted rows are lost at shutdown |

## Left out

- `binance_client.py`, `utils.py`: HTTP and websocket transport, request signing and
  timestamps are not part of this model. The exchange's answers are parameters: the
  recent-trades list, the page oracle, and the sequence of decoded live events.
- `sql_queries.py` is reduced to the column order of the rows. The store is two
  append-only sequences.
- Database errors (the connection failing, an insert rejected during a flush) are left
  out: every insert is accepted into the run's transaction, and the only rollback
  modelled is the one an escaping startup error causes.
- Signal handling, task scheduling and the queue are left out. Shutdown is the point
  after the given events, or after `fuel` page requests.
- Logging (`print`) is left out.
- Malformed REST responses (a missing key or a wrong JSON type in a trade or candle)
  are left out; only the live events can lack keys.
- Live events whose values have the wrong JSON type are left out. For example, a `t`
  or `k.t` that is null or a string makes the `>` comparison raise `TypeError`. Only
  `KeyError` is caught, so that would end the ingestor, and no later event would be
  stored. The `Option` fields of `LiveStream.Event` model only a missing key.
- The `NameError` in `finally` when creating the session itself fails is left out;
  session creation always succeeds.
- Candlesticks.TruncToSecond: `int(x / 1000)` goes through a float; the model
  truncates exactly, which agrees for epoch-millisecond times below 2^53.
- Sessions.SessionTradeTimes: the `SELECT` has no `ORDER BY`; the model reads rows back
  in insertion order.
- Candlesticks.Paginate: termination is bounded by `fuel`. A loop that would run
  forever shows up as `StillPaging` for every fuel, not as a diverging computation.
- Candlesticks.StalledPageLoopsForever: the model has no clock, and the exchange's
  answer to a given start time is fixed for the whole run. A real exchange that later
  lists newer candles would answer the repeated request with a longer page, and the
  loop would move on.
