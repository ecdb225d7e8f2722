/** The live-stream ingestor: decoded exchange events folded through a filter-and-batch
    step; both batches go to the store when their combined size reaches the threshold. */
module LiveStream {
  import opened Wrappers
  import opened Records

  /** The nested `k` object of a kline event; a key the event lacks is `None`.
      Wire keys: t, T, f, L, o, c, h, l, v, n, q, V, Q. */
  datatype KlineFields = KlineFields(
    openTime: Option<int>,
    closeTime: Option<int>,
    firstTradeId: Option<int>,
    lastTradeId: Option<int>,
    openPrice: Option<string>,
    closePrice: Option<string>,
    highPrice: Option<string>,
    lowPrice: Option<string>,
    baseAssetVolume: Option<string>,
    numTrades: Option<int>,
    quoteAssetVolume: Option<string>,
    takerBuyBaseVolume: Option<string>,
    takerBuyQuoteVolume: Option<string>)

  /** One decoded live message; a key the message lacks is `None`.
      Wire keys: e (kind), t, T, p, q, b, a, m, k. */
  datatype Event = Event(
    kind: Option<string>,
    tradeId: Option<int>,
    tradeTime: Option<int>,
    price: Option<string>,
    quantity: Option<string>,
    buyerOrderId: Option<int>,
    sellerOrderId: Option<int>,
    isBuyerMaker: Option<bool>,
    kline: Option<KlineFields>)

  /** What the backfill hands to the live stage: the session and the two boundary markers. */
  datatype Boundary = Boundary(sessionId: int, lastId: int, lastKline: int)

  /** The ingestor's locals: the two pending batches, their combined count, and the store. */
  datatype LiveState = LiveState(tradesBatch: seq<TradeRow>, klinesBatch: seq<KlineRow>, count: int, stored: Store)

  /** The state the ingestor starts in, on top of what the backfill stored. */
  function Initial(stored: Store): LiveState {
    LiveState([], [], 0, stored)
  }

  /** Between events the counter is the combined size of the batches and below the threshold. */
  predicate Inv(s: LiveState) {
    s.count == |s.tradesBatch| + |s.klinesBatch| && 0 <= s.count < MaxBatchSize
  }

  /** Every trade row the ingestor holds, stored first and then pending. */
  function AllTrades(s: LiveState): seq<TradeRow> {
    s.stored.trades + s.tradesBatch
  }

  /** Every kline row the ingestor holds, stored first and then pending. */
  function AllKlines(s: LiveState): seq<KlineRow> {
    s.stored.klines + s.klinesBatch
  }

  /** Number of rows in the store. */
  function StoredCount(s: LiveState): nat {
    |s.stored.trades| + |s.stored.klines|
  }

  /** The trade event carries every key its row is built from. */
  predicate CompleteTrade(e: Event) {
    && e.tradeId.Some? && e.tradeTime.Some? && e.price.Some? && e.quantity.Some?
    && e.buyerOrderId.Some? && e.sellerOrderId.Some? && e.isBuyerMaker.Some?
  }

  /** The kline object carries every key its row is built from. */
  predicate CompleteKline(k: KlineFields) {
    && k.openTime.Some? && k.closeTime.Some? && k.firstTradeId.Some? && k.lastTradeId.Some?
    && k.openPrice.Some? && k.closePrice.Some? && k.highPrice.Some? && k.lowPrice.Some?
    && k.baseAssetVolume.Some? && k.numTrades.Some? && k.quoteAssetVolume.Some?
    && k.takerBuyBaseVolume.Some? && k.takerBuyQuoteVolume.Some?
  }

  /** Reads the trade event back out of a stored live trade row. */
  function TradeEventOf(row: TradeRow): Event {
    Event(Some("trade"), Some(row.tradeId), Some(row.tradeTime), Some(row.price), Some(row.quantity),
          row.buyerOrderId, row.sellerOrderId, Some(row.isBuyerMaker), None)
  }

  /** Reads the `k` object back out of a stored live kline row. */
  function KlineFieldsOf(row: KlineRow): KlineFields {
    KlineFields(Some(row.openTime), Some(row.closeTime), row.firstTradeId, row.lastTradeId,
                Some(row.openPrice), Some(row.closePrice), Some(row.highPrice), Some(row.lowPrice),
                Some(row.baseAssetVolume), Some(row.numTrades), Some(row.quoteAssetVolume),
                Some(row.takerBuyBaseVolume), Some(row.takerBuyQuoteVolume))
  }

  /** The trade row built from a complete trade event. */
  function TradeRowOf(sessionId: int, e: Event): (row: TradeRow)
    requires CompleteTrade(e)
    ensures row.sessionId == sessionId
    ensures TradeEventOf(row) == e.(kind := Some("trade"), kline := None)
  {
    TradeRow(sessionId, e.tradeTime.value, e.tradeId.value, e.price.value, e.quantity.value,
             e.buyerOrderId, e.sellerOrderId, e.isBuyerMaker.value)
  }

  /** The kline row built from a complete kline object. */
  function KlineRowOf(sessionId: int, k: KlineFields): (row: KlineRow)
    requires CompleteKline(k)
    ensures row.sessionId == sessionId
    ensures KlineFieldsOf(row) == k
  {
    KlineRow(sessionId, k.openTime.value, k.closeTime.value, k.firstTradeId, k.lastTradeId,
             k.openPrice.value, k.closePrice.value, k.highPrice.value, k.lowPrice.value,
             k.baseAssetVolume.value, k.numTrades.value, k.quoteAssetVolume.value,
             k.takerBuyBaseVolume.value, k.takerBuyQuoteVolume.value)
  }

  /** The event is a complete trade strictly beyond the trade-id boundary. */
  predicate TradeAccepted(b: Boundary, e: Event) {
    e.kind == Some("trade") && CompleteTrade(e) && e.tradeId.value > b.lastId
  }

  /** The event is a complete kline strictly beyond the kline open-time boundary. */
  predicate KlineAccepted(b: Boundary, e: Event) {
    && e.kind == Some("kline") && e.kline.Some? && CompleteKline(e.kline.value)
    && e.kline.value.openTime.value > b.lastKline
  }

  predicate Accepted(b: Boundary, e: Event) {
    TradeAccepted(b, e) || KlineAccepted(b, e)
  }

  /** What the body of the `try` does with one event before the flush check. */
  datatype Action = Ignore | AppendTrade(trade: TradeRow) | AppendKline(kline: KlineRow)

  /** The two guarded appends, looking keys up in the order the source does;
      `None` is a `KeyError`, raised before anything is appended. A row is appended
      exactly for an accepted event, and it is the row built from that event. */
  function Dispatch(b: Boundary, e: Event): (r: Option<Action>)
    ensures (r.Some? && r.value.AppendTrade?) <==> TradeAccepted(b, e)
    ensures (r.Some? && r.value.AppendKline?) <==> KlineAccepted(b, e)
    ensures r.Some? && r.value.AppendTrade? ==> r.value.trade == TradeRowOf(b.sessionId, e)
    ensures r.Some? && r.value.AppendKline? ==> r.value.kline == KlineRowOf(b.sessionId, e.kline.value)
  {
    if e.kind.None? then None
    else if e.kind.value == "trade" then
      if e.tradeId.None? then None
      else if e.tradeId.value <= b.lastId then Some(Ignore)
      else if !CompleteTrade(e) then None
      else Some(AppendTrade(TradeRowOf(b.sessionId, e)))
    else if e.kind.value == "kline" then
      if e.kline.None? || e.kline.value.openTime.None? then None
      else if e.kline.value.openTime.value <= b.lastKline then Some(Ignore)
      else if !CompleteKline(e.kline.value) then None
      else Some(AppendKline(KlineRowOf(b.sessionId, e.kline.value)))
    else Some(Ignore)
  }

  /** Both batches appended to the store, trades first, and cleared. */
  function Flush(s: LiveState): (s': LiveState)
    ensures AllTrades(s') == AllTrades(s) && AllKlines(s') == AllKlines(s)
    ensures s'.tradesBatch == [] && s'.klinesBatch == [] && s'.count == 0
    ensures s.stored.trades <= s'.stored.trades && s.stored.klines <= s'.stored.klines
  {
    LiveState([], [], 0, Store(s.stored.trades + s.tradesBatch, s.stored.klines + s.klinesBatch))
  }

  /** One iteration of the ingestor's loop. A `KeyError` skips the flush check too. */
  function Step(b: Boundary, s: LiveState, e: Event): (s': LiveState)
    ensures AllTrades(s') == AllTrades(s) + (if TradeAccepted(b, e) then [TradeRowOf(b.sessionId, e)] else [])
    ensures AllKlines(s') == AllKlines(s) + (if KlineAccepted(b, e) then [KlineRowOf(b.sessionId, e.kline.value)] else [])
    ensures Inv(s) ==> Inv(s')
    ensures Inv(s) && !Accepted(b, e) ==> s' == s
    ensures Inv(s) && Accepted(b, e) && s.count < MaxBatchSize - 1 ==> s'.stored == s.stored && s'.count == s.count + 1
    ensures Inv(s) && Accepted(b, e) && s.count == MaxBatchSize - 1 ==>
      && s'.stored == Store(AllTrades(s'), AllKlines(s'))
      && s'.tradesBatch == [] && s'.klinesBatch == [] && s'.count == 0
    ensures Inv(s) ==> StoredCount(s') == StoredCount(s) || StoredCount(s') == StoredCount(s) + MaxBatchSize
    ensures s.stored.trades <= s'.stored.trades && s.stored.klines <= s'.stored.klines
  {
    match Dispatch(b, e)
    case None => s
    case Some(action) =>
      var s1 := match action
        case Ignore => s
        case AppendTrade(row) => s.(tradesBatch := s.tradesBatch + [row], count := s.count + 1)
        case AppendKline(row) => s.(klinesBatch := s.klinesBatch + [row], count := s.count + 1);
      if s1.count == MaxBatchSize then Flush(s1) else s1
  }

  /** The ingestor's loop over the events it dequeues, in order. */
  function Ingest(b: Boundary, s: LiveState, events: seq<Event>): LiveState
    decreases |events|
  {
    if |events| == 0 then s else Ingest(b, Step(b, s, events[0]), events[1..])
  }

  /** The rows of the accepted trade events, in arrival order. */
  function AcceptedTrades(b: Boundary, events: seq<Event>): seq<TradeRow>
    decreases |events|
  {
    if |events| == 0 then []
    else (if TradeAccepted(b, events[0]) then [TradeRowOf(b.sessionId, events[0])] else [])
         + AcceptedTrades(b, events[1..])
  }

  /** The rows of the accepted kline events, in arrival order. */
  function AcceptedKlines(b: Boundary, events: seq<Event>): seq<KlineRow>
    decreases |events|
  {
    if |events| == 0 then []
    else (if KlineAccepted(b, events[0]) then [KlineRowOf(b.sessionId, events[0].kline.value)] else [])
         + AcceptedKlines(b, events[1..])
  }

  /** Folding the loop over any events keeps the invariant and adds to the held rows
      exactly the accepted ones, in arrival order: nothing is lost, duplicated or reordered. */
  lemma {:induction false} IngestAccumulates(b: Boundary, s: LiveState, events: seq<Event>)
    ensures AllTrades(Ingest(b, s, events)) == AllTrades(s) + AcceptedTrades(b, events)
    ensures AllKlines(Ingest(b, s, events)) == AllKlines(s) + AcceptedKlines(b, events)
    ensures Inv(s) ==> Inv(Ingest(b, s, events))
    ensures s.stored.trades <= Ingest(b, s, events).stored.trades
    ensures s.stored.klines <= Ingest(b, s, events).stored.klines
    decreases |events|
  {
    if |events| > 0 {
      IngestAccumulates(b, Step(b, s, events[0]), events[1..]);
    }
  }

  /** A flush-sized step keeps a multiple of the batch size a multiple. */
  lemma BatchMultiple(step: int, rest: int)
    requires step == 0 || step == MaxBatchSize
    requires rest % MaxBatchSize == 0
    ensures (step + rest) % MaxBatchSize == 0
  {
  }

  /** The store grows only by whole flushes of the threshold size. */
  lemma {:induction false} IngestFlushesWholeBatches(b: Boundary, s: LiveState, events: seq<Event>)
    requires Inv(s)
    ensures StoredCount(s) <= StoredCount(Ingest(b, s, events))
    ensures (StoredCount(Ingest(b, s, events)) - StoredCount(s)) % MaxBatchSize == 0
    decreases |events|
  {
    if |events| > 0 {
      var s1 := Step(b, s, events[0]);
      var s2 := Ingest(b, s1, events[1..]);
      assert Ingest(b, s, events) == s2;
      IngestFlushesWholeBatches(b, s1, events[1..]);
      BatchMultiple(StoredCount(s1) - StoredCount(s), StoredCount(s2) - StoredCount(s1));
    }
  }

  /** From the backfilled store, the live rows kept at shutdown are a whole number of
      batches, and fewer than a batch of accepted rows are lost. */
  lemma IngestStoresWholeBatches(b: Boundary, stored: Store, events: seq<Event>)
    ensures var kept := Shutdown(Ingest(b, Initial(stored), events));
      var live := |kept.trades| + |kept.klines| - |stored.trades| - |stored.klines|;
      var accepted := |AcceptedTrades(b, events)| + |AcceptedKlines(b, events)|;
      && GrewByWholeBatches(stored, kept)
      && live <= accepted < live + MaxBatchSize
  {
    var init := Initial(stored);
    IngestAccumulates(b, init, events);
    IngestFlushesWholeBatches(b, init, events);
    var s := Ingest(b, init, events);
    assert |AllTrades(s)| == |stored.trades| + |AcceptedTrades(b, events)|;
    assert |AllKlines(s)| == |stored.klines| + |AcceptedKlines(b, events)|;
  }

  /** Every accepted trade row belongs to the session and lies beyond the boundary;
      every accepted kline row likewise. */
  lemma {:induction false} AcceptedBeyondBoundary(b: Boundary, events: seq<Event>)
    ensures forall i :: 0 <= i < |AcceptedTrades(b, events)| ==>
      AcceptedTrades(b, events)[i].tradeId > b.lastId && AcceptedTrades(b, events)[i].sessionId == b.sessionId
    ensures forall i :: 0 <= i < |AcceptedKlines(b, events)| ==>
      AcceptedKlines(b, events)[i].openTime > b.lastKline && AcceptedKlines(b, events)[i].sessionId == b.sessionId
    decreases |events|
  {
    if |events| > 0 {
      AcceptedBeyondBoundary(b, events[1..]);
    }
  }

  /** When the store kept its old rows in front and stored-plus-pending grew by the
      accepted rows, the newly stored rows are the leading accepted ones. */
  lemma StoredPartIsAccepted<T>(before: seq<T>, accepted: seq<T>, now: seq<T>, pending: seq<T>)
    requires before <= now
    requires now + pending == before + accepted
    ensures forall i :: |before| <= i < |now| ==> now[i] == accepted[i - |before|]
  {
    forall i | |before| <= i < |now| ensures now[i] == accepted[i - |before|] {
      assert now[i] == (now + pending)[i] == (before + accepted)[i];
    }
  }

  /** Starting from the backfilled store, the ingestor keeps the backfilled rows in front,
      and every row it adds behind them, stored or pending, is an accepted one: beyond the
      boundary and in arrival order. */
  lemma LiveRowsFollowBackfill(b: Boundary, stored: Store, events: seq<Event>)
    ensures var s := Ingest(b, Initial(stored), events);
      && s.stored.trades + s.tradesBatch == stored.trades + AcceptedTrades(b, events)
      && s.stored.klines + s.klinesBatch == stored.klines + AcceptedKlines(b, events)
      && stored.trades <= s.stored.trades && stored.klines <= s.stored.klines
      && (forall i :: |stored.trades| <= i < |s.stored.trades| ==>
            s.stored.trades[i].tradeId > b.lastId && s.stored.trades[i].sessionId == b.sessionId)
      && (forall i :: |stored.klines| <= i < |s.stored.klines| ==>
            s.stored.klines[i].openTime > b.lastKline && s.stored.klines[i].sessionId == b.sessionId)
  {
    var s := Ingest(b, Initial(stored), events);
    IngestAccumulates(b, Initial(stored), events);
    AcceptedBeyondBoundary(b, events);
    StoredPartIsAccepted(stored.trades, AcceptedTrades(b, events), s.stored.trades, s.tradesBatch);
    StoredPartIsAccepted(stored.klines, AcceptedKlines(b, events), s.stored.klines, s.klinesBatch);
  }

  /** The boundary markers are never advanced: an accepted trade event delivered twice
      is kept twice. */
  lemma ReplayedTradeKeptTwice(b: Boundary, s: LiveState, e: Event)
    requires TradeAccepted(b, e)
    ensures AllTrades(Ingest(b, s, [e, e])) == AllTrades(s) + [TradeRowOf(b.sessionId, e), TradeRowOf(b.sessionId, e)]
  {
    IngestAccumulates(b, s, [e, e]);
    var row := TradeRowOf(b.sessionId, e);
    assert [e, e][1..] == [e];
    assert AcceptedTrades(b, [e]) == [row] + AcceptedTrades(b, []);
    assert AcceptedTrades(b, [e, e]) == [row, row];
  }

  /** The kline boundary is never advanced either: successive updates of a still-open
      candle, all beyond the boundary, are each kept as a row with the same open time. */
  lemma OpenCandleUpdatesKeptAll(b: Boundary, s: LiveState, e1: Event, e2: Event)
    requires KlineAccepted(b, e1) && KlineAccepted(b, e2)
    requires e1.kline.value.openTime == e2.kline.value.openTime
    ensures AllKlines(Ingest(b, s, [e1, e2]))
         == AllKlines(s) + [KlineRowOf(b.sessionId, e1.kline.value), KlineRowOf(b.sessionId, e2.kline.value)]
  {
    IngestAccumulates(b, s, [e1, e2]);
    assert [e1, e2][1..] == [e2];
    assert AcceptedKlines(b, [e2]) == [KlineRowOf(b.sessionId, e2.kline.value)] + AcceptedKlines(b, []);
  }

  /** The event is tagged as a trade and carries a trade id. */
  predicate IsTradeEvent(e: Event) {
    e.kind == Some("trade") && e.tradeId.Some?
  }

  /** The exchange delivers trades in strictly increasing id order. */
  predicate TradeIdsIncrease(events: seq<Event>) {
    forall i, j :: 0 <= i < j < |events| && IsTradeEvent(events[i]) && IsTradeEvent(events[j]) ==>
      events[i].tradeId.value < events[j].tradeId.value
  }

  /** Accepted trades carry ids of the events' trades, so a bound on those bounds them. */
  lemma {:induction false} AcceptedTradesAbove(b: Boundary, events: seq<Event>, lo: int)
    requires forall i :: 0 <= i < |events| && IsTradeEvent(events[i]) ==> events[i].tradeId.value > lo
    ensures forall k :: 0 <= k < |AcceptedTrades(b, events)| ==> AcceptedTrades(b, events)[k].tradeId > lo
    decreases |events|
  {
    if |events| > 0 {
      AcceptedTradesAbove(b, events[1..], lo);
    }
  }

  /** When the exchange delivers trades in id order, the accepted trade rows are in
      strictly increasing id order too. */
  lemma {:induction false} AcceptedTradesIncrease(b: Boundary, events: seq<Event>)
    requires TradeIdsIncrease(events)
    ensures IdsIncrease(AcceptedTrades(b, events))
    decreases |events|
  {
    if |events| > 0 {
      var tail := events[1..];
      AcceptedTradesIncrease(b, tail);
      if TradeAccepted(b, events[0]) {
        AcceptedTradesAbove(b, tail, events[0].tradeId.value);
        var rows := AcceptedTrades(b, events);
        assert rows == [TradeRowOf(b.sessionId, events[0])] + AcceptedTrades(b, tail);
        forall i, j | 0 <= i < j < |rows| ensures rows[i].tradeId < rows[j].tradeId {
          if i > 0 {
            assert rows[i] == AcceptedTrades(b, tail)[i - 1];
          }
          assert rows[j] == AcceptedTrades(b, tail)[j - 1];
        }
      }
    }
  }

  /** Shutdown stops the loop and keeps exactly what was flushed: every stored row stays,
      and the pending rows, fewer than a batch, are discarded. */
  function Shutdown(s: LiveState): (stored: Store)
    ensures s.stored.trades <= stored.trades && s.stored.klines <= stored.klines
    ensures Inv(s) ==> |AllTrades(s)| + |AllKlines(s)| - (|stored.trades| + |stored.klines|) < MaxBatchSize
    ensures stored.trades <= AllTrades(s) && stored.klines <= AllKlines(s)
    ensures |stored.trades| + |stored.klines| == StoredCount(s)
  {
    s.stored
  }
}
