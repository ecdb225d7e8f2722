/** Rows written to the store, the store itself, constants and error causes of the ingestion pipeline. */
module Records {
  import opened Wrappers

  /** Number of accepted live records that triggers a flush. */
  const MaxBatchSize: nat := 30

  /** The one symbol this pipeline ingests, upper-cased as it is sent to the exchange and stored. */
  const Ticker: string := "ETHUSDT"

  /** A row of the `trades` table. The order ids are only known for live trades. */
  datatype TradeRow = TradeRow(
    sessionId: int,
    tradeTime: int,
    tradeId: int,
    price: string,
    quantity: string,
    buyerOrderId: Option<int>,
    sellerOrderId: Option<int>,
    isBuyerMaker: bool)

  /** A row of the `klines_1s` table. The first/last trade ids are only known for live candles. */
  datatype KlineRow = KlineRow(
    sessionId: int,
    openTime: int,
    closeTime: int,
    firstTradeId: Option<int>,
    lastTradeId: Option<int>,
    openPrice: string,
    closePrice: string,
    highPrice: string,
    lowPrice: string,
    baseAssetVolume: string,
    numTrades: int,
    quoteAssetVolume: string,
    takerBuyBaseVolume: string,
    takerBuyQuoteVolume: string)

  /** The two append-only tables, rows in insertion order. */
  datatype Store = Store(trades: seq<TradeRow>, klines: seq<KlineRow>)

  /** Why a stage of the pipeline did not return normally. */
  datatype Error =
    | EmptyTradeList   // `trades[0]` of an empty recent-trades response
    | EmptyPage        // `klines[-1]` of an empty candlestick page
    | NoPageRequested  // `klines` read after a pagination loop that never ran
    | StillPaging      // the pagination loop has not exited within the requests modelled
    | NoSessionTrades  // `timestamps[0]` when the session has no trade rows

  /** `after` extends `before` by a whole number of batches, with nothing left over from
      a partial one. */
  predicate GrewByWholeBatches(before: Store, after: Store) {
    var added := |after.trades| + |after.klines| - |before.trades| - |before.klines|;
    0 <= added && added % MaxBatchSize == 0
  }

  /** Trade ids strictly increase in row order. */
  predicate IdsIncrease(rows: seq<TradeRow>) {
    forall i, j :: 0 <= i < j < |rows| ==> rows[i].tradeId < rows[j].tradeId
  }

  /** Trade times never decrease in row order. */
  predicate TimesNondecreasing(times: seq<int>) {
    forall i, j :: 0 <= i <= j < |times| ==> times[i] <= times[j]
  }
}
