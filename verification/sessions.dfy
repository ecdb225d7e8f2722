/** The session record: created with empty time bounds before any data flows, and given
    its bounds once, at shutdown, from the trade rows stored under it. */
module Sessions {
  import opened Wrappers
  import opened Records

  /** A row of the `sessions` table; the id is assigned by the store. */
  datatype Session = Session(id: int, coin: string, beginTime: Option<int>, endTime: Option<int>)

  /** `create_session`: the inserted row for the ticker, both bounds unset, under the id
      the store returned. */
  function CreateSession(id: int): (s: Session)
    ensures s.id == id && s.coin == Ticker
    ensures s.beginTime == None && s.endTime == None
  {
    Session(id, Ticker, None, None)
  }

  /** Row `i` is the session's first trade row in insertion order. */
  predicate FirstOfSession(trades: seq<TradeRow>, sessionId: int, i: int) {
    && 0 <= i < |trades| && trades[i].sessionId == sessionId
    && forall j :: 0 <= j < i ==> trades[j].sessionId != sessionId
  }

  /** Row `i` is the session's last trade row in insertion order. */
  predicate LastOfSession(trades: seq<TradeRow>, sessionId: int, i: int) {
    && 0 <= i < |trades| && trades[i].sessionId == sessionId
    && forall j :: i < j < |trades| ==> trades[j].sessionId != sessionId
  }

  /** The session has at least one trade row. */
  predicate HasTrades(trades: seq<TradeRow>, sessionId: int) {
    exists i :: 0 <= i < |trades| && trades[i].sessionId == sessionId
  }

  /** `SELECT trade_time FROM trades WHERE session_id = ...`, read back in insertion order. */
  function SessionTradeTimes(trades: seq<TradeRow>, sessionId: int): (times: seq<int>)
    ensures |times| <= |trades|
    decreases |trades|
  {
    if |trades| == 0 then []
    else (if trades[0].sessionId == sessionId then [trades[0].tradeTime] else [])
         + SessionTradeTimes(trades[1..], sessionId)
  }

  /** `t` is the trade time of one of the session's own rows. */
  predicate TimeOfSession(trades: seq<TradeRow>, sessionId: int, t: int) {
    exists i :: 0 <= i < |trades| && trades[i].sessionId == sessionId && trades[i].tradeTime == t
  }

  /** Only the session's own times are read back: the filter lets no other session's row
      through. */
  lemma {:induction false} SessionTimesSound(trades: seq<TradeRow>, sessionId: int)
    decreases |trades|
    ensures forall t :: t in SessionTradeTimes(trades, sessionId) ==> TimeOfSession(trades, sessionId, t)
  {
    if |trades| > 0 {
      var tail := trades[1..];
      SessionTimesSound(tail, sessionId);
      forall t | t in SessionTradeTimes(trades, sessionId) ensures TimeOfSession(trades, sessionId, t) {
        if trades[0].sessionId == sessionId && t == trades[0].tradeTime {
          assert trades[0].tradeTime == t;
        } else {
          assert t in SessionTradeTimes(tail, sessionId);
          var i :| 0 <= i < |tail| && tail[i].sessionId == sessionId && tail[i].tradeTime == t;
          assert trades[i + 1] == tail[i];
        }
      }
    }
  }

  /** Nothing is read back exactly when the session has no trade rows, and then the
      first time read back is that of the session's first row. */
  lemma {:induction false} FirstSessionTime(trades: seq<TradeRow>, sessionId: int)
    decreases |trades|
    ensures var times := SessionTradeTimes(trades, sessionId);
      && (|times| == 0 <==> !HasTrades(trades, sessionId))
      && (|times| > 0 ==> exists i :: FirstOfSession(trades, sessionId, i) && times[0] == trades[i].tradeTime)
  {
    if |trades| > 0 {
      var tail := trades[1..];
      FirstSessionTime(tail, sessionId);
      var rest := SessionTradeTimes(tail, sessionId);
      if HasTrades(trades, sessionId) {
        var i :| 0 <= i < |trades| && trades[i].sessionId == sessionId;
        if i > 0 { assert tail[i - 1].sessionId == sessionId; }
      }
      if HasTrades(tail, sessionId) {
        var i :| 0 <= i < |tail| && tail[i].sessionId == sessionId;
        assert trades[i + 1].sessionId == sessionId;
      }
      if trades[0].sessionId == sessionId {
        assert FirstOfSession(trades, sessionId, 0);
      } else if |rest| > 0 {
        var i :| FirstOfSession(tail, sessionId, i) && rest[0] == tail[i].tradeTime;
        assert FirstOfSession(trades, sessionId, i + 1);
      }
    }
  }

  /** The last time read back is that of the session's last trade row. */
  lemma {:induction false} LastSessionTime(trades: seq<TradeRow>, sessionId: int)
    decreases |trades|
    ensures var times := SessionTradeTimes(trades, sessionId);
      |times| > 0 ==> exists i :: LastOfSession(trades, sessionId, i) && times[|times| - 1] == trades[i].tradeTime
  {
    if |trades| > 0 {
      var tail := trades[1..];
      LastSessionTime(tail, sessionId);
      var rest := SessionTradeTimes(tail, sessionId);
      if |rest| > 0 {
        var i :| LastOfSession(tail, sessionId, i) && rest[|rest| - 1] == tail[i].tradeTime;
        assert LastOfSession(trades, sessionId, i + 1);
      } else if trades[0].sessionId == sessionId {
        FirstSessionTime(tail, sessionId);
        assert LastOfSession(trades, sessionId, 0) by {
          forall j | 0 < j < |trades| ensures trades[j].sessionId != sessionId {
            assert tail[j - 1] == trades[j];
          }
        }
      }
    }
  }

  /** Every trade time of the session is among the times read back. */
  lemma {:induction false} SessionTimesComplete(trades: seq<TradeRow>, sessionId: int)
    decreases |trades|
    ensures forall i :: 0 <= i < |trades| && trades[i].sessionId == sessionId ==>
      trades[i].tradeTime in SessionTradeTimes(trades, sessionId)
  {
    if |trades| > 0 {
      var tail := trades[1..];
      SessionTimesComplete(tail, sessionId);
      forall i | 0 < i < |trades| && trades[i].sessionId == sessionId
        ensures trades[i].tradeTime in SessionTradeTimes(trades, sessionId)
      {
        assert tail[i - 1] == trades[i];
      }
    }
  }

  /** `update_session_timestamps`: the session's begin and end time become the first and
      the last of its trade times as read back; a session without trades raises. */
  function FinalizeSession(session: Session, trades: seq<TradeRow>): (r: Result<Session, Error>)
    ensures r.Ok? <==> HasTrades(trades, session.id)
    ensures r.Err? ==> r.error == NoSessionTrades
    ensures r.Ok? ==> r.value.id == session.id && r.value.coin == session.coin
    ensures r.Ok? ==> exists i :: FirstOfSession(trades, session.id, i) && r.value.beginTime == Some(trades[i].tradeTime)
    ensures r.Ok? ==> exists i :: LastOfSession(trades, session.id, i) && r.value.endTime == Some(trades[i].tradeTime)
  {
    FirstSessionTime(trades, session.id);
    LastSessionTime(trades, session.id);
    var timestamps := SessionTradeTimes(trades, session.id);
    if |timestamps| == 0 then Err(NoSessionTrades)
    else Ok(session.(beginTime := Some(timestamps[0]), endTime := Some(timestamps[|timestamps| - 1])))
  }

  /** When every trade row belongs to the session, its bounds are the times of the first
      and the last row. */
  lemma FinalizeOwnRows(session: Session, trades: seq<TradeRow>)
    requires |trades| > 0
    requires forall i :: 0 <= i < |trades| ==> trades[i].sessionId == session.id
    ensures FinalizeSession(session, trades).Ok?
    ensures FinalizeSession(session, trades).value
         == session.(beginTime := Some(trades[0].tradeTime), endTime := Some(trades[|trades| - 1].tradeTime))
  {
    assert trades[0].sessionId == session.id;
    assert trades[|trades| - 1].sessionId == session.id;
    var f := FinalizeSession(session, trades).value;
    var i :| FirstOfSession(trades, session.id, i) && f.beginTime == Some(trades[i].tradeTime);
    var j :| LastOfSession(trades, session.id, j) && f.endTime == Some(trades[j].tradeTime);
    assert i == 0;
    assert j == |trades| - 1;
  }

  /** When the session's trade times never decrease in insertion order, the bounds
      written are the minimum and the maximum of its trade times. */
  lemma {:induction false} SortedTimesGiveExtremes(session: Session, trades: seq<TradeRow>)
    requires TimesNondecreasing(SessionTradeTimes(trades, session.id))
    requires FinalizeSession(session, trades).Ok?
    ensures var f := FinalizeSession(session, trades).value;
      forall i :: 0 <= i < |trades| && trades[i].sessionId == session.id ==>
        f.beginTime.value <= trades[i].tradeTime <= f.endTime.value
  {
    var times := SessionTradeTimes(trades, session.id);
    var f := FinalizeSession(session, trades).value;
    SessionTimesComplete(trades, session.id);
    forall i | 0 <= i < |trades| && trades[i].sessionId == session.id
      ensures f.beginTime.value <= trades[i].tradeTime <= f.endTime.value
    {
      var k :| 0 <= k < |times| && times[k] == trades[i].tradeTime;
      assert times[0] <= times[k] <= times[|times| - 1];
    }
  }
}
