/** The recent-trade backfill: one bulk insert of the exchange's most recent trades,
    returning the time anchors and the trade-id boundary for the later stages. */
module RecentTrades {
  import opened Wrappers
  import opened Records

  /** One element of the exchange's recent-trades response (keys `id`, `price`, `qty`, `time`, `isBuyerMaker`). */
  datatype RestTrade = RestTrade(id: int, price: string, qty: string, time: int, isBuyerMaker: bool)

  /** The inserted rows and the returned triple (first time, last time, last id). */
  datatype TradeBackfill = TradeBackfill(rows: seq<TradeRow>, firstTime: int, lastTime: int, lastId: int)

  /** Reads the exchange's trade back out of a stored row. */
  function TradeOf(row: TradeRow): RestTrade {
    RestTrade(row.tradeId, row.price, row.quantity, row.tradeTime, row.isBuyerMaker)
  }

  /** The row stored for one backfilled trade: it belongs to the session, has no order ids,
      and keeps every field of the exchange's trade. */
  function RowOf(sessionId: int, t: RestTrade): (row: TradeRow)
    ensures row.sessionId == sessionId
    ensures row.buyerOrderId == None && row.sellerOrderId == None
    ensures TradeOf(row) == t
  {
    TradeRow(sessionId, t.time, t.id, t.price, t.qty, None, None, t.isBuyerMaker)
  }

  /** `get_recent_trades`: one row per trade in response order, then the first and last
      trade times and the id of the last trade; an empty response raises. */
  function GetRecentTrades(sessionId: int, trades: seq<RestTrade>): (r: Result<TradeBackfill, Error>)
    ensures r.Err? <==> |trades| == 0
    ensures r.Err? ==> r.error == EmptyTradeList
    ensures r.Ok? ==> |r.value.rows| == |trades|
    ensures r.Ok? ==> forall i :: 0 <= i < |trades| ==>
      && TradeOf(r.value.rows[i]) == trades[i]
      && r.value.rows[i].sessionId == sessionId
      && r.value.rows[i].buyerOrderId.None?
      && r.value.rows[i].sellerOrderId.None?
    ensures r.Ok? ==> r.value.firstTime == r.value.rows[0].tradeTime
    ensures r.Ok? ==> r.value.lastTime == r.value.rows[|trades| - 1].tradeTime
    ensures r.Ok? ==> r.value.lastId == r.value.rows[|trades| - 1].tradeId
  {
    var rows := seq(|trades|, i requires 0 <= i < |trades| => RowOf(sessionId, trades[i]));
    if |trades| == 0 then Err(EmptyTradeList)
    else Ok(TradeBackfill(rows, trades[0].time, trades[|trades| - 1].time, trades[|trades| - 1].id))
  }

  /** The exchange lists trades oldest first: ids strictly increase. */
  predicate Ascending(trades: seq<RestTrade>) {
    forall i, j :: 0 <= i < j < |trades| ==> trades[i].id < trades[j].id
  }

  /** When the response is in ascending id order, the returned last id is the highest
      backfilled id and the stored rows keep that order. */
  lemma LastIdIsHighest(sessionId: int, trades: seq<RestTrade>)
    requires Ascending(trades)
    requires GetRecentTrades(sessionId, trades).Ok?
    ensures var b := GetRecentTrades(sessionId, trades).value;
      && IdsIncrease(b.rows)
      && forall i :: 0 <= i < |b.rows| ==> b.rows[i].tradeId <= b.lastId
  {
    var b := GetRecentTrades(sessionId, trades).value;
    forall i, j | 0 <= i < j < |b.rows| ensures b.rows[i].tradeId < b.rows[j].tradeId {
      assert TradeOf(b.rows[i]) == trades[i] && TradeOf(b.rows[j]) == trades[j];
    }
    forall i | 0 <= i < |b.rows| ensures b.rows[i].tradeId <= b.lastId {
      assert TradeOf(b.rows[i]) == trades[i];
      assert TradeOf(b.rows[|b.rows| - 1]) == trades[|trades| - 1];
    }
  }

  /** The trade times of a response, in response order. */
  function TimesOf(trades: seq<RestTrade>): (times: seq<int>)
    ensures |times| == |trades|
    ensures forall i :: 0 <= i < |trades| ==> times[i] == trades[i].time
  {
    seq(|trades|, i requires 0 <= i < |trades| => trades[i].time)
  }

  /** When trade times never decrease, every backfilled row lies between the returned
      first and last times. */
  lemma BackfillTimesBracketRows(sessionId: int, trades: seq<RestTrade>)
    requires TimesNondecreasing(TimesOf(trades))
    requires GetRecentTrades(sessionId, trades).Ok?
    ensures var b := GetRecentTrades(sessionId, trades).value;
      forall i :: 0 <= i < |b.rows| ==> b.firstTime <= b.rows[i].tradeTime <= b.lastTime
  {
    var b := GetRecentTrades(sessionId, trades).value;
    forall i | 0 <= i < |b.rows| ensures b.firstTime <= b.rows[i].tradeTime <= b.lastTime {
      assert TradeOf(b.rows[i]) == trades[i];
      assert TradeOf(b.rows[0]) == trades[0];
      assert TradeOf(b.rows[|b.rows| - 1]) == trades[|trades| - 1];
    }
  }
}
