/** The whole run: create the session, backfill trades then candles, ingest live events
    until shutdown, and finalize the session from whatever was stored. */
module Pipeline {
  import opened Wrappers
  import opened Records
  import RT = RecentTrades
  import CS = Candlesticks
  import LS = LiveStream
  import opened Sessions

  /** What a run leaves behind: the error that ended startup early (if any), the rows
      inserted in the run's transaction, the outcome of the finalization the run always
      attempts on its way out, and whether the transaction commits. The connection is not
      in autocommit mode, so the inserts and the finalization become durable only when the
      connection block exits normally. */
  datatype Run = Run(startError: Option<Error>, store: Store, finalized: Result<Session, Error>, committed: bool)

  /** Only a shutdown (`CancelledError`) is caught around the startup stages; any other
      startup error propagates out of the connection block. */
  predicate Escapes(startError: Option<Error>) {
    startError.Some? && startError.value != StillPaging
  }

  /** The `finally` clause and the end of the connection block: the session is finalized
      from the trade rows inserted under it, and the transaction commits unless an error
      escapes, from startup or from the finalization itself. */
  function Finish(startError: Option<Error>, store: Store, session: Session): Run {
    var finalized := FinalizeSession(session, store.trades);
    Run(startError, store, finalized, !Escapes(startError) && finalized.Ok?)
  }

  /** One run. `fuel` is the number of page requests that complete before shutdown;
      `events` are the live events dequeued before shutdown. A backfill failure or a
      shutdown while paging skips the live stage; pending live batches are discarded. */
  function RunSession(sessionId: int, recent: seq<RT.RestTrade>, pages: CS.PageOracle, fuel: nat,
                      events: seq<LS.Event>): (r: Run)
    ensures r.committed ==> r.startError.None? || r.startError == Some(StillPaging)
    ensures r.startError.Some? ==> r.store.klines == []
  {
    var session := CreateSession(sessionId);
    match RT.GetRecentTrades(sessionId, recent)
    case Err(e) => Finish(Some(e), Store([], []), session)
    case Ok(tb) =>
      match CS.GetCandlesticks(pages, sessionId, tb.firstTime, tb.lastTime, fuel)
      case Err(e) => Finish(Some(e), Store(tb.rows, []), session)
      case Ok(cb) =>
        var boundary := LS.Boundary(sessionId, tb.lastId, cb.lastOpen);
        Finish(None, LS.Shutdown(LS.Ingest(boundary, LS.Initial(Store(tb.rows, cb.rows)), events)), session)
  }

  /** The boundary the live stage receives when both backfills succeed. */
  function BoundaryOf(sessionId: int, recent: seq<RT.RestTrade>, pages: CS.PageOracle, fuel: nat): LS.Boundary
    requires RT.GetRecentTrades(sessionId, recent).Ok?
    requires var tb := RT.GetRecentTrades(sessionId, recent).value;
      CS.GetCandlesticks(pages, sessionId, tb.firstTime, tb.lastTime, fuel).Ok?
  {
    var tb := RT.GetRecentTrades(sessionId, recent).value;
    LS.Boundary(sessionId, tb.lastId, CS.GetCandlesticks(pages, sessionId, tb.firstTime, tb.lastTime, fuel).value.lastOpen)
  }

  /** With no recent trades the run stops at once, inserts nothing, its finalization fails,
      and the error propagates, so nothing is committed. */
  lemma RunWithoutTradesStoresNothing(sessionId: int, pages: CS.PageOracle, fuel: nat, events: seq<LS.Event>)
    ensures var r := RunSession(sessionId, [], pages, fuel, events);
      && r.startError == Some(EmptyTradeList) && r.store == Store([], [])
      && r.finalized == Err(NoSessionTrades) && !r.committed
  {
    FirstSessionTime([], sessionId);
  }

  /** Every row a run stores belongs to its session. */
  lemma RunRowsBelongToSession(sessionId: int, recent: seq<RT.RestTrade>, pages: CS.PageOracle, fuel: nat,
                               events: seq<LS.Event>)
    ensures var r := RunSession(sessionId, recent, pages, fuel, events);
      forall i :: 0 <= i < |r.store.trades| ==> r.store.trades[i].sessionId == sessionId
  {
    var r := RunSession(sessionId, recent, pages, fuel, events);
    var t := RT.GetRecentTrades(sessionId, recent);
    if t.Ok? {
      var tb := t.value;
      var c := CS.GetCandlesticks(pages, sessionId, tb.firstTime, tb.lastTime, fuel);
      if c.Ok? {
        var b := LS.Boundary(sessionId, tb.lastId, c.value.lastOpen);
        LS.LiveRowsFollowBackfill(b, Store(tb.rows, c.value.rows), events);
        forall i | 0 <= i < |r.store.trades| ensures r.store.trades[i].sessionId == sessionId {
          if i < |tb.rows| {
            assert r.store.trades[i] == tb.rows[i];
          }
        }
      }
    }
  }

  /** A run with recent trades always computes its session's bounds in `finally`: the begin
      time is the time of the first backfilled trade, whatever happens later, and the end
      time is that of the last trade row inserted. (They are durable only when the run
      commits.) */
  lemma RunFinalizesFromStoredTrades(sessionId: int, recent: seq<RT.RestTrade>, pages: CS.PageOracle, fuel: nat,
                                     events: seq<LS.Event>)
    requires |recent| > 0
    ensures var r := RunSession(sessionId, recent, pages, fuel, events);
      && r.finalized.Ok?
      && |r.store.trades| >= |recent|
      && r.finalized.value.id == sessionId && r.finalized.value.coin == Ticker
      && r.finalized.value.beginTime == Some(recent[0].time)
      && r.finalized.value.endTime == Some(r.store.trades[|r.store.trades| - 1].tradeTime)
  {
    var r := RunSession(sessionId, recent, pages, fuel, events);
    var tb := RT.GetRecentTrades(sessionId, recent).value;
    var c := CS.GetCandlesticks(pages, sessionId, tb.firstTime, tb.lastTime, fuel);
    if c.Ok? {
      var b := LS.Boundary(sessionId, tb.lastId, c.value.lastOpen);
      LS.LiveRowsFollowBackfill(b, Store(tb.rows, c.value.rows), events);
    }
    assert tb.rows <= r.store.trades;
    assert r.store.trades[0] == tb.rows[0];
    assert RT.TradeOf(tb.rows[0]) == recent[0];
    RunRowsBelongToSession(sessionId, recent, pages, fuel, events);
    FinalizeOwnRows(CreateSession(sessionId), r.store.trades);
  }

  /** When startup stops early (empty page, nothing to page, or shutdown while paging),
      the candle pages already fetched are lost: no kline row is inserted, only the
      backfilled trades, and those are committed only after a shutdown; an empty page or an
      empty paging range escapes and rolls them back. */
  lemma EarlyStopStoresNoCandles(sessionId: int, recent: seq<RT.RestTrade>, pages: CS.PageOracle, fuel: nat,
                                 events: seq<LS.Event>)
    requires |recent| > 0
    requires RunSession(sessionId, recent, pages, fuel, events).startError.Some?
    ensures var r := RunSession(sessionId, recent, pages, fuel, events);
      && r.store.klines == []
      && r.store.trades == RT.GetRecentTrades(sessionId, recent).value.rows
      && r.startError.value in {EmptyPage, NoPageRequested, StillPaging}
      && (r.committed <==> r.startError == Some(StillPaging))
  {
    RunCommitsExactlyOnShutdown(sessionId, recent, pages, fuel, events);
  }

  /** The run commits exactly when startup completed or was cut short by a shutdown; after
      any other startup error nothing from the run is durable: not its inserts, not its
      session bounds. */
  lemma RunCommitsExactlyOnShutdown(sessionId: int, recent: seq<RT.RestTrade>, pages: CS.PageOracle, fuel: nat,
                                    events: seq<LS.Event>)
    ensures var r := RunSession(sessionId, recent, pages, fuel, events);
      r.committed <==> r.startError.None? || r.startError == Some(StillPaging)
  {
    if |recent| > 0 {
      RunFinalizesFromStoredTrades(sessionId, recent, pages, fuel, events);
    }
  }

  /** At the seam between backfill and live data: the backfilled rows stay in front, and
      every live trade row behind them has an id above the last backfilled id, every live
      kline row an open time after the last backfilled candle, which itself is at or past
      the second of the last backfilled trade. */
  lemma LiveRowsBeyondBackfill(sessionId: int, recent: seq<RT.RestTrade>, pages: CS.PageOracle, fuel: nat,
                               events: seq<LS.Event>)
    requires RunSession(sessionId, recent, pages, fuel, events).startError.None?
    ensures RT.GetRecentTrades(sessionId, recent).Ok?
    ensures var tb := RT.GetRecentTrades(sessionId, recent).value;
      CS.GetCandlesticks(pages, sessionId, tb.firstTime, tb.lastTime, fuel).Ok?
    ensures var r := RunSession(sessionId, recent, pages, fuel, events);
      var tb := RT.GetRecentTrades(sessionId, recent).value;
      var cb := CS.GetCandlesticks(pages, sessionId, tb.firstTime, tb.lastTime, fuel).value;
      && cb.lastOpen >= CS.TruncToSecond(tb.lastTime)
      && tb.rows <= r.store.trades && cb.rows <= r.store.klines
      && (forall i :: |tb.rows| <= i < |r.store.trades| ==> r.store.trades[i].tradeId > tb.lastId)
      && (forall i :: |cb.rows| <= i < |r.store.klines| ==> r.store.klines[i].openTime > cb.lastOpen)
  {
    var tb := RT.GetRecentTrades(sessionId, recent).value;
    var cb := CS.GetCandlesticks(pages, sessionId, tb.firstTime, tb.lastTime, fuel).value;
    LS.LiveRowsFollowBackfill(LS.Boundary(sessionId, tb.lastId, cb.lastOpen), Store(tb.rows, cb.rows), events);
  }

  /** Two id-ordered runs of rows, all ids of the first at most `mid` and all of the
      second above it, form an id-ordered run, and so does every prefix of it. */
  lemma IdsIncreaseAcrossSeam(front: seq<TradeRow>, back: seq<TradeRow>, mid: int, prefix: seq<TradeRow>)
    requires IdsIncrease(front) && IdsIncrease(back)
    requires forall i :: 0 <= i < |front| ==> front[i].tradeId <= mid
    requires forall i :: 0 <= i < |back| ==> back[i].tradeId > mid
    requires prefix <= front + back
    ensures IdsIncrease(prefix)
  {
    var all := front + back;
    forall i, j | 0 <= i < j < |prefix| ensures prefix[i].tradeId < prefix[j].tradeId {
      assert prefix[i] == all[i] && prefix[j] == all[j];
      if j < |front| {
        assert all[i] == front[i] && all[j] == front[j];
      } else if i < |front| {
        assert all[i] == front[i] && all[j] == back[j - |front|];
      } else {
        assert all[i] == back[i - |front|] && all[j] == back[j - |front|];
      }
    }
  }

  /** No duplicate and no reordering at the seam: when the exchange lists recent trades and
      pushes live trades in id order, the run's trade rows are in strictly increasing id order. */
  lemma RunStoresTradesInIdOrder(sessionId: int, recent: seq<RT.RestTrade>, pages: CS.PageOracle, fuel: nat,
                                 events: seq<LS.Event>)
    requires RT.Ascending(recent)
    requires LS.TradeIdsIncrease(events)
    ensures IdsIncrease(RunSession(sessionId, recent, pages, fuel, events).store.trades)
  {
    var r := RunSession(sessionId, recent, pages, fuel, events);
    var t := RT.GetRecentTrades(sessionId, recent);
    if t.Ok? {
      var tb := t.value;
      RT.LastIdIsHighest(sessionId, recent);
      var c := CS.GetCandlesticks(pages, sessionId, tb.firstTime, tb.lastTime, fuel);
      if c.Ok? {
        var b := LS.Boundary(sessionId, tb.lastId, c.value.lastOpen);
        var s := LS.Ingest(b, LS.Initial(Store(tb.rows, c.value.rows)), events);
        LS.LiveRowsFollowBackfill(b, Store(tb.rows, c.value.rows), events);
        LS.AcceptedTradesIncrease(b, events);
        LS.AcceptedBeyondBoundary(b, events);
        assert r.store.trades <= tb.rows + LS.AcceptedTrades(b, events);
        IdsIncreaseAcrossSeam(tb.rows, LS.AcceptedTrades(b, events), tb.lastId, r.store.trades);
      } else {
        IdsIncreaseAcrossSeam(tb.rows, [], tb.lastId, r.store.trades);
      }
    }
  }

  /** When both backfills succeed, the run's store is what the live stage keeps at
      shutdown, starting from the backfilled rows. */
  lemma RunStoreIsLiveStage(sessionId: int, recent: seq<RT.RestTrade>, pages: CS.PageOracle, fuel: nat,
                            events: seq<LS.Event>)
    requires RT.GetRecentTrades(sessionId, recent).Ok?
    requires var tb := RT.GetRecentTrades(sessionId, recent).value;
      CS.GetCandlesticks(pages, sessionId, tb.firstTime, tb.lastTime, fuel).Ok?
    ensures var tb := RT.GetRecentTrades(sessionId, recent).value;
      var cb := CS.GetCandlesticks(pages, sessionId, tb.firstTime, tb.lastTime, fuel).value;
      var r := RunSession(sessionId, recent, pages, fuel, events);
      && r.startError.None?
      && r.store == LS.Shutdown(LS.Ingest(BoundaryOf(sessionId, recent, pages, fuel), LS.Initial(Store(tb.rows, cb.rows)), events))
  {
  }

  /** Live rows reach the store only in whole batches: the number stored beyond the
      backfill is a multiple of the batch size, and fewer than a batch of accepted rows
      are left pending and lost at shutdown. */
  lemma RunStoresWholeBatches(sessionId: int, recent: seq<RT.RestTrade>, pages: CS.PageOracle, fuel: nat,
                              events: seq<LS.Event>)
    requires RT.GetRecentTrades(sessionId, recent).Ok?
    requires var tb := RT.GetRecentTrades(sessionId, recent).value;
      CS.GetCandlesticks(pages, sessionId, tb.firstTime, tb.lastTime, fuel).Ok?
    ensures var r := RunSession(sessionId, recent, pages, fuel, events);
      var tb := RT.GetRecentTrades(sessionId, recent).value;
      var cb := CS.GetCandlesticks(pages, sessionId, tb.firstTime, tb.lastTime, fuel).value;
      var b := BoundaryOf(sessionId, recent, pages, fuel);
      var backfill := Store(tb.rows, cb.rows);
      var live := |r.store.trades| + |r.store.klines| - |backfill.trades| - |backfill.klines|;
      var accepted := |LS.AcceptedTrades(b, events)| + |LS.AcceptedKlines(b, events)|;
      && GrewByWholeBatches(backfill, r.store)
      && live <= accepted < live + MaxBatchSize
  {
    var tb := RT.GetRecentTrades(sessionId, recent).value;
    var cb := CS.GetCandlesticks(pages, sessionId, tb.firstTime, tb.lastTime, fuel).value;
    RunStoreIsLiveStage(sessionId, recent, pages, fuel, events);
    LS.IngestStoresWholeBatches(BoundaryOf(sessionId, recent, pages, fuel), Store(tb.rows, cb.rows), events);
  }
}
