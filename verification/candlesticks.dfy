/** The candlestick backfill: pages of 1-second candles requested forward from the first
    backfilled trade until the last page reaches the second of the last backfilled trade,
    all stored in one bulk insert after the loop. */
module Candlesticks {
  import opened Wrappers
  import opened Records

  /** One candle of the exchange's kline response, an array whose positions are
      0 open time, 1 open, 2 high, 3 low, 4 close, 5 volume, 6 close time,
      7 quote volume, 8 number of trades, 9 taker buy base volume, 10 taker buy quote volume. */
  datatype RestKline = RestKline(
    openTime: int,
    open: string,
    high: string,
    low: string,
    close: string,
    volume: string,
    closeTime: int,
    quoteVolume: string,
    numTrades: int,
    takerBuyBase: string,
    takerBuyQuote: string)

  /** The exchange answering a candlestick request that starts at the given open time. */
  type PageOracle = int -> seq<RestKline>

  /** Reads the exchange's candle back out of a stored row. */
  function KlineOf(row: KlineRow): RestKline {
    RestKline(row.openTime, row.openPrice, row.highPrice, row.lowPrice, row.closePrice,
              row.baseAssetVolume, row.closeTime, row.quoteAssetVolume, row.numTrades,
              row.takerBuyBaseVolume, row.takerBuyQuoteVolume)
  }

  /** The row stored for one backfilled candle: it belongs to the session, has no
      trade-id range, and keeps every field of the exchange's candle in its column. */
  function RowOf(sessionId: int, k: RestKline): (row: KlineRow)
    ensures row.sessionId == sessionId
    ensures row.firstTradeId == None && row.lastTradeId == None
    ensures KlineOf(row) == k
  {
    KlineRow(sessionId, k.openTime, k.closeTime, None, None, k.open, k.close, k.high, k.low,
             k.volume, k.numTrades, k.quoteVolume, k.takerBuyBase, k.takerBuyQuote)
  }

  /** The rows of one page, in page order. */
  function PageRows(sessionId: int, page: seq<RestKline>): seq<KlineRow> {
    seq(|page|, i requires 0 <= i < |page| => RowOf(sessionId, page[i]))
  }

  /** `int(t / 1000) * 1000`: the millisecond time truncated toward zero to a whole second. */
  function TruncToSecond(t: int): (r: int)
    ensures r % 1000 == 0
    ensures 0 <= t ==> 0 <= r <= t < r + 1000
    ensures t < 0 ==> r - 1000 < t <= r <= 0
  {
    if t >= 0 then t / 1000 * 1000 else -((-t) / 1000 * 1000)
  }

  /** Open time of the last candle of a page, `klines[-1][0]`. */
  function LastOpen(page: seq<RestKline>): int
    requires |page| > 0
  {
    page[|page| - 1].openTime
  }

  /** The rows of the pages answered to the given requests, concatenated in request order. */
  function ChainRows(pages: PageOracle, sessionId: int, requests: seq<int>): seq<KlineRow>
  {
    if |requests| == 0 then [] else PageRows(sessionId, pages(requests[0])) + ChainRows(pages, sessionId, requests[1..])
  }

  /** The requests the loop has issued from `start` so far: the first starts at `start`,
      each one starts exactly at the last open time of the previous page, and every request
      was made below `lastSec` and answered with a non-empty page. `at` is the pointer they
      leave: the last page's last open time, or `start` when nothing was requested. */
  predicate Walk(pages: PageOracle, lastSec: int, start: int, requests: seq<int>, at: int) {
    && (forall i {:trigger pages(requests[i])} :: 0 <= i < |requests| ==> requests[i] < lastSec && |pages(requests[i])| > 0)
    && (|requests| == 0 ==> at == start)
    && (|requests| > 0 ==> requests[0] == start && at == LastOpen(pages(requests[|requests| - 1])))
    && (forall i {:trigger pages(requests[i])} :: 0 <= i < |requests| - 1 ==> requests[i + 1] == LastOpen(pages(requests[i])))
  }

  /** The requests a finished pagination issues: a walk that leaves the pointer at or
      past `lastSec`. */
  predicate IsChain(pages: PageOracle, lastSec: int, start: int, requests: seq<int>, final: int) {
    Walk(pages, lastSec, start, requests, final) && final >= lastSec
  }

  /** A finished pagination: the requests issued, the rows collected, the final pointer. */
  datatype Paged = Paged(requests: seq<int>, rows: seq<KlineRow>, pointer: int)

  /** The `while time_pointer < last_sec` loop, issuing at most `fuel` requests:
      `Err(StillPaging)` means the loop is still running after `fuel` requests. When it
      finishes, it requested pages exactly when the pointer started below `lastSec`, the
      first request starts at the pointer, the final pointer is at least `lastSec`, and the
      rows are those of the answered pages in request order. */
  function Paginate(pages: PageOracle, sessionId: int, lastSec: int, pointer: int, fuel: nat): (r: Result<Paged, Error>)
    decreases fuel
    ensures r.Err? ==> r.error == EmptyPage || r.error == StillPaging
    ensures r.Err? ==> pointer < lastSec
    ensures r.Ok? ==> |r.value.requests| <= fuel && r.value.pointer >= lastSec
    ensures r.Ok? ==> (|r.value.requests| == 0 <==> pointer >= lastSec)
    ensures r.Ok? && |r.value.requests| == 0 ==> r.value.pointer == pointer
    ensures r.Ok? && |r.value.requests| > 0 ==> r.value.requests[0] == pointer
    ensures r.Ok? ==> r.value.rows == ChainRows(pages, sessionId, r.value.requests)
  {
    if pointer >= lastSec then Ok(Paged([], [], pointer))
    else if fuel == 0 then Err(StillPaging)
    else
      var page := pages(pointer);
      if |page| == 0 then Err(EmptyPage)
      else
        match Paginate(pages, sessionId, lastSec, LastOpen(page), fuel - 1)
        case Err(e) => Err(e)
        case Ok(rest) =>
          var requests := [pointer] + rest.requests;
          assert requests[1..] == rest.requests;
          Ok(Paged(requests, PageRows(sessionId, page) + rest.rows, rest.pointer))
  }

  /** One iteration of the loop: a request below `lastSec` answered with a non-empty page
      is followed by the loop from that page's last open time. */
  lemma PaginateUnfold(pages: PageOracle, sessionId: int, lastSec: int, start: int, fuel: nat, rest: Paged)
    requires start < lastSec && fuel > 0 && |pages(start)| > 0
    requires Paginate(pages, sessionId, lastSec, LastOpen(pages(start)), fuel - 1) == Ok(rest)
    ensures Paginate(pages, sessionId, lastSec, start, fuel)
         == Ok(Paged([start] + rest.requests, PageRows(sessionId, pages(start)) + rest.rows, rest.pointer))
  {
  }

  /** Dropping the first request of a walk leaves a walk from the first page's last open time. */
  lemma WalkTail(pages: PageOracle, lastSec: int, start: int, requests: seq<int>, at: int)
    requires Walk(pages, lastSec, start, requests, at)
    requires |requests| > 0
    ensures start < lastSec && |pages(start)| > 0
    ensures Walk(pages, lastSec, LastOpen(pages(start)), requests[1..], at)
  {
    var tail := requests[1..];
    assert |pages(requests[0])| > 0;
    forall i | 0 <= i < |tail| ensures tail[i] < lastSec && |pages(tail[i])| > 0 {
      assert tail[i] == requests[i + 1];
      assert |pages(requests[i + 1])| > 0;
    }
    forall i | 0 <= i < |tail| - 1 ensures tail[i + 1] == LastOpen(pages(tail[i])) {
      assert tail[i + 1] == requests[i + 2] && tail[i] == requests[i + 1];
      assert requests[i + 2] == LastOpen(pages(requests[i + 1]));
    }
    if |tail| > 0 {
      assert tail[0] == requests[1] == LastOpen(pages(requests[0]));
      assert tail[|tail| - 1] == requests[|requests| - 1];
    }
  }

  /** A request below `lastSec` answered with a non-empty page, followed by a walk from
      that page's last open time, is a walk. */
  lemma WalkCons(pages: PageOracle, lastSec: int, start: int, tail: seq<int>, at: int)
    requires start < lastSec && |pages(start)| > 0
    requires Walk(pages, lastSec, LastOpen(pages(start)), tail, at)
    ensures Walk(pages, lastSec, start, [start] + tail, at)
  {
    var requests := [start] + tail;
    forall i | 0 <= i < |requests| ensures requests[i] < lastSec && |pages(requests[i])| > 0 {
      if i > 0 {
        assert requests[i] == tail[i - 1];
        assert |pages(tail[i - 1])| > 0;
      }
    }
    forall i | 0 <= i < |requests| - 1 ensures requests[i + 1] == LastOpen(pages(requests[i])) {
      if i > 0 {
        assert requests[i + 1] == tail[i] && requests[i] == tail[i - 1];
        assert tail[i] == LastOpen(pages(tail[i - 1]));
      }
    }
    if |tail| > 0 {
      assert requests[|requests| - 1] == tail[|tail| - 1];
    }
  }

  /** Every finished pagination is a chain: each request starts exactly where the previous
      page ended. */
  lemma {:induction false} PaginateIsChain(pages: PageOracle, sessionId: int, lastSec: int, pointer: int, fuel: nat)
    requires Paginate(pages, sessionId, lastSec, pointer, fuel).Ok?
    ensures var p := Paginate(pages, sessionId, lastSec, pointer, fuel).value;
      IsChain(pages, lastSec, pointer, p.requests, p.pointer)
    decreases fuel
  {
    if pointer < lastSec {
      var next := LastOpen(pages(pointer));
      var rest := Paginate(pages, sessionId, lastSec, next, fuel - 1).value;
      PaginateIsChain(pages, sessionId, lastSec, next, fuel - 1);
      WalkCons(pages, lastSec, pointer, rest.requests, rest.pointer);
      PaginateUnfold(pages, sessionId, lastSec, pointer, fuel, rest);
    }
  }

  /** The rows of a request followed by more requests are that page's rows followed by theirs. */
  lemma ChainRowsCons(pages: PageOracle, sessionId: int, start: int, tail: seq<int>)
    ensures ChainRows(pages, sessionId, [start] + tail) == PageRows(sessionId, pages(start)) + ChainRows(pages, sessionId, tail)
  {
    assert ([start] + tail)[1..] == tail;
  }

  /** Pagination is determined by the exchange's answers: any chain of at most `fuel`
      requests is exactly what the loop issues and collects. */
  lemma {:induction false} ChainIsPaginated(pages: PageOracle, sessionId: int, lastSec: int, start: int,
                                            requests: seq<int>, final: int, fuel: nat)
    requires IsChain(pages, lastSec, start, requests, final)
    requires |requests| <= fuel
    ensures Paginate(pages, sessionId, lastSec, start, fuel)
         == Ok(Paged(requests, ChainRows(pages, sessionId, requests), final))
    decreases fuel
  {
    if |requests| > 0 {
      var tail := requests[1..];
      var rest := Paged(tail, ChainRows(pages, sessionId, tail), final);
      assert [start] + tail == requests;
      WalkTail(pages, lastSec, start, requests, final);
      ChainIsPaginated(pages, sessionId, lastSec, LastOpen(pages(start)), tail, final, fuel - 1);
      PaginateUnfold(pages, sessionId, lastSec, start, fuel, rest);
      ChainRowsCons(pages, sessionId, start, tail);
    }
  }

  /** A failed pagination is explained by the walk it made before failing: it stopped
      below `lastSec`, either on an empty page with requests to spare, or with every
      allowed request spent. */
  lemma {:induction false} FailureHasWalk(pages: PageOracle, sessionId: int, lastSec: int, pointer: int, fuel: nat)
    requires Paginate(pages, sessionId, lastSec, pointer, fuel).Err?
    ensures exists requests, at ::
      && Walk(pages, lastSec, pointer, requests, at) && at < lastSec
      && (Paginate(pages, sessionId, lastSec, pointer, fuel) == Err(EmptyPage) ==> |requests| < fuel && |pages(at)| == 0)
      && (Paginate(pages, sessionId, lastSec, pointer, fuel) == Err(StillPaging) ==> |requests| == fuel)
    decreases fuel
  {
    if fuel == 0 || |pages(pointer)| == 0 {
      assert Walk(pages, lastSec, pointer, [], pointer);
    } else {
      var next := LastOpen(pages(pointer));
      FailureHasWalk(pages, sessionId, lastSec, next, fuel - 1);
      var requests, at :|
        && Walk(pages, lastSec, next, requests, at) && at < lastSec
        && (Paginate(pages, sessionId, lastSec, next, fuel - 1) == Err(EmptyPage) ==> |requests| < fuel - 1 && |pages(at)| == 0)
        && (Paginate(pages, sessionId, lastSec, next, fuel - 1) == Err(StillPaging) ==> |requests| == fuel - 1);
      WalkCons(pages, lastSec, pointer, requests, at);
      assert Walk(pages, lastSec, pointer, [pointer] + requests, at);
    }
  }

  /** Conversely, a walk that stops below `lastSec` makes the loop fail: still running when
      it used every allowed request, on an empty page when requests were left. */
  lemma {:induction false} WalkFails(pages: PageOracle, sessionId: int, lastSec: int, start: int,
                                     requests: seq<int>, at: int, fuel: nat)
    requires Walk(pages, lastSec, start, requests, at) && at < lastSec
    requires |requests| == fuel || (|requests| < fuel && |pages(at)| == 0)
    ensures Paginate(pages, sessionId, lastSec, start, fuel)
         == Err(if |requests| == fuel then StillPaging else EmptyPage)
    decreases fuel
  {
    if |requests| > 0 {
      WalkTail(pages, lastSec, start, requests, at);
      WalkFails(pages, sessionId, lastSec, LastOpen(pages(start)), requests[1..], at, fuel - 1);
    }
  }

  /** The two ways the loop fails, each tied to what the exchange answered: an empty page
      (the `IndexError` of `klines[-1]`) exactly when a walk below `lastSec` with requests to
      spare reaches an empty page, and still running at shutdown exactly when a walk spends
      every allowed request below `lastSec`. */
  lemma PaginateFailsExactly(pages: PageOracle, sessionId: int, lastSec: int, pointer: int, fuel: nat)
    ensures Paginate(pages, sessionId, lastSec, pointer, fuel) == Err(EmptyPage)
        <==> exists requests, at ::
               Walk(pages, lastSec, pointer, requests, at) && at < lastSec && |requests| < fuel && |pages(at)| == 0
    ensures Paginate(pages, sessionId, lastSec, pointer, fuel) == Err(StillPaging)
        <==> exists requests, at ::
               Walk(pages, lastSec, pointer, requests, at) && at < lastSec && |requests| == fuel
  {
    if Paginate(pages, sessionId, lastSec, pointer, fuel).Err? {
      FailureHasWalk(pages, sessionId, lastSec, pointer, fuel);
    }
    forall requests, at | Walk(pages, lastSec, pointer, requests, at) && at < lastSec
        && (|requests| == fuel || (|requests| < fuel && |pages(at)| == 0))
      ensures Paginate(pages, sessionId, lastSec, pointer, fuel) == Err(if |requests| == fuel then StillPaging else EmptyPage)
    {
      WalkFails(pages, sessionId, lastSec, pointer, requests, at, fuel);
    }
  }

  /** The exchange's pages advance: a non-empty page answered below `lastSec` ends after its start. */
  ghost predicate Advances(pages: PageOracle, lastSec: int) {
    forall p :: p < lastSec && |pages(p)| > 0 ==> LastOpen(pages(p)) > p
  }

  /** With advancing pages, `lastSec - pointer` requests are enough: the loop either
      exits or meets an empty page; it never keeps running. */
  lemma {:induction false} AdvancingPagesFinish(pages: PageOracle, sessionId: int, lastSec: int, pointer: int, fuel: nat)
    requires Advances(pages, lastSec)
    requires lastSec - pointer <= fuel
    ensures Paginate(pages, sessionId, lastSec, pointer, fuel) != Err(StillPaging)
    decreases fuel
  {
    if pointer < lastSec && |pages(pointer)| > 0 {
      AdvancingPagesFinish(pages, sessionId, lastSec, LastOpen(pages(pointer)), fuel - 1);
    }
  }

  /** A non-empty page whose last candle opens at the request's own start time is
      requested again and again: the loop never exits, whatever the number of requests. */
  lemma {:induction false} StalledPageLoopsForever(pages: PageOracle, sessionId: int, lastSec: int, pointer: int, fuel: nat)
    requires pointer < lastSec
    requires |pages(pointer)| > 0 && LastOpen(pages(pointer)) == pointer
    ensures Paginate(pages, sessionId, lastSec, pointer, fuel) == Err(StillPaging)
    decreases fuel
  {
    if fuel > 0 {
      StalledPageLoopsForever(pages, sessionId, lastSec, pointer, fuel - 1);
    }
  }

  /** The exchange's start time is inclusive: a non-empty page starts with the candle
      opening at the requested time. */
  ghost predicate InclusiveStart(pages: PageOracle) {
    forall p :: |pages(p)| > 0 ==> pages(p)[0].openTime == p
  }

  /** Because each request starts at the previous page's last open time, an inclusive
      exchange answers it with that same candle again: any pagination of two or more
      pages stores two rows with the same open time. */
  lemma SeamCandleStoredTwice(pages: PageOracle, sessionId: int, lastSec: int, start: int, fuel: nat)
    requires InclusiveStart(pages)
    requires Paginate(pages, sessionId, lastSec, start, fuel).Ok?
    requires |Paginate(pages, sessionId, lastSec, start, fuel).value.requests| >= 2
    ensures var rows := Paginate(pages, sessionId, lastSec, start, fuel).value.rows;
      exists i, j :: 0 <= i < j < |rows| && rows[i].openTime == rows[j].openTime
  {
    var p := Paginate(pages, sessionId, lastSec, start, fuel).value;
    PaginateIsChain(pages, sessionId, lastSec, start, fuel);
    var first := pages(p.requests[0]);
    var second := pages(p.requests[1]);
    assert |first| > 0 && |second| > 0;
    assert p.requests[1] == LastOpen(first);
    var rest := p.requests[1..];
    assert rest[0] == p.requests[1] && rest[1..] == p.requests[2..];
    assert p.rows == PageRows(sessionId, first) + (PageRows(sessionId, second) + ChainRows(pages, sessionId, p.requests[2..]));
    var i := |first| - 1;
    assert p.rows[i] == RowOf(sessionId, first[i]);
    assert p.rows[i + 1] == RowOf(sessionId, second[0]);
    assert p.rows[i].openTime == p.requests[1] == p.rows[i + 1].openTime;
  }

  /** The candle part of the backfill: the requests issued, the rows bulk-inserted after
      the loop, and the returned open time. */
  datatype CandleBackfill = CandleBackfill(requests: seq<int>, rows: seq<KlineRow>, lastOpen: int)

  /** `get_candlesticks` with at most `fuel` page requests. It fails when no page was
      requested (the anchors fall in the same second, or the first after the last) or a
      page is empty; otherwise the first request starts at the first anchor's second, and
      it returns an open time at or past the last anchor's second, with the rows of every
      answered page. */
  function GetCandlesticks(pages: PageOracle, sessionId: int, firstTrade: int, lastTrade: int, fuel: nat): (r: Result<CandleBackfill, Error>)
    ensures TruncToSecond(firstTrade) >= TruncToSecond(lastTrade) <==> r == Err(NoPageRequested)
    ensures r.Err? ==> r.error in {EmptyPage, StillPaging, NoPageRequested}
    ensures r.Ok? ==> 0 < |r.value.requests| <= fuel && r.value.requests[0] == TruncToSecond(firstTrade)
    ensures r.Ok? ==> r.value.lastOpen >= TruncToSecond(lastTrade)
    ensures r.Ok? ==> r.value.rows == ChainRows(pages, sessionId, r.value.requests)
  {
    var firstSec := TruncToSecond(firstTrade);
    var lastSec := TruncToSecond(lastTrade);
    match Paginate(pages, sessionId, lastSec, firstSec, fuel)
    case Err(e) => Err(e)
    case Ok(p) =>
      if |p.requests| == 0 then Err(NoPageRequested)
      else Ok(CandleBackfill(p.requests, p.rows, p.pointer))
  }

  /** The candle backfill issues exactly the chain of requests from the first anchor's
      second up to the last anchor's second, and returns the chain's final open time. */
  lemma CandlesticksFollowChain(pages: PageOracle, sessionId: int, firstTrade: int, lastTrade: int, fuel: nat)
    requires GetCandlesticks(pages, sessionId, firstTrade, lastTrade, fuel).Ok?
    ensures var c := GetCandlesticks(pages, sessionId, firstTrade, lastTrade, fuel).value;
      IsChain(pages, TruncToSecond(lastTrade), TruncToSecond(firstTrade), c.requests, c.lastOpen)
  {
    PaginateIsChain(pages, sessionId, TruncToSecond(lastTrade), TruncToSecond(firstTrade), fuel);
  }

  /** The candle backfill fails on an empty page exactly when the walk from the first
      anchor's second reaches an empty page below the last anchor's second with requests
      to spare, and is still paging at shutdown exactly when that walk spends every
      allowed request below it. */
  lemma CandlesticksFailExactly(pages: PageOracle, sessionId: int, firstTrade: int, lastTrade: int, fuel: nat)
    ensures var firstSec, lastSec := TruncToSecond(firstTrade), TruncToSecond(lastTrade);
      var r := GetCandlesticks(pages, sessionId, firstTrade, lastTrade, fuel);
      (r == Err(EmptyPage)) <==>
        (exists requests, at :: Walk(pages, lastSec, firstSec, requests, at) && at < lastSec && |requests| < fuel && |pages(at)| == 0)
    ensures var firstSec, lastSec := TruncToSecond(firstTrade), TruncToSecond(lastTrade);
      var r := GetCandlesticks(pages, sessionId, firstTrade, lastTrade, fuel);
      (r == Err(StillPaging)) <==>
        (exists requests, at :: Walk(pages, lastSec, firstSec, requests, at) && at < lastSec && |requests| == fuel)
  {
    PaginateFailsExactly(pages, sessionId, TruncToSecond(lastTrade), TruncToSecond(firstTrade), fuel);
  }
}
