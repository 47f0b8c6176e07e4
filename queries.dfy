/**
 * The read endpoints get_stats (trading_service.py, lines 79-120) and
 * get_historical_trades (lines 122-151): both first check the `user_id`
 * query parameter, then answer "not found" for a user without trades.
 * Whether the store's query succeeds is the flag `queryOk`; a failed query
 * is caught by the endpoint's handler and answered with a generic error.
 */
module Queries {
  import opened Trades
  import opened Store
  import opened Stats

  /** The answer of a read endpoint. */
  datatype Answer<+T> = MissingParameter | NotFound | InternalError | Found(value: T)

  /** One row of the historical listing: the record without its id and owner. */
  datatype HistoryEntry = HistoryEntry(
    timestamp: Timestamp,
    ticker: Value,
    side: Side,
    price: PositiveReal,
    volume: PositiveReal,
    status: Status)

  function Entry(t: Trade): HistoryEntry
  {
    HistoryEntry(t.timestamp, t.ticker, t.side, t.price, t.volume, t.status)
  }

  /** The listing of `s`: one entry per trade, in order. */
  function History(s: seq<Trade>): (h: seq<HistoryEntry>)
    ensures |h| == |s|
  {
    if s == [] then [] else [Entry(s[0])] + History(s[1..])
  }

  /** Entry `i` of the listing is projected from trade `i`. */
  lemma {:induction false} HistoryAt(s: seq<Trade>, i: nat)
    requires i < |s|
    ensures History(s)[i] == Entry(s[i])
  {
    if i > 0 {
      HistoryAt(s[1..], i - 1);
    }
  }

  /** The listing keeps every field the endpoint reports. */
  lemma HistoryFaithful(s: seq<Trade>)
    ensures |History(s)| == |s|
    ensures forall i | 0 <= i < |s| ::
      && History(s)[i].timestamp == s[i].timestamp
      && History(s)[i].ticker == s[i].ticker
      && History(s)[i].side == s[i].side
      && History(s)[i].price == s[i].price
      && History(s)[i].volume == s[i].volume
      && History(s)[i].status == s[i].status
  {
    forall i | 0 <= i < |s|
      ensures History(s)[i] == Entry(s[i])
    {
      HistoryAt(s, i);
    }
  }

  /** The `user_id` parameter counts as given when present and non-empty. */
  predicate Given(userId: Option<string>)
  {
    userId.Some? && userId.value != ""
  }

  /** get_stats: the per-ticker statistics of the user's trades. */
  method GetStats(store: TradeStore, userId: Option<string>, queryOk: bool)
    returns (r: Answer<map<Value, TickerStats>>)
    ensures r == MissingParameter <==> userId.None? || userId.value == ""
    ensures r == InternalError <==> userId.Some? && userId.value != "" && !queryOk
    ensures r == NotFound <==> Given(userId) && queryOk && store.ByUser(userId.value) == []
    ensures r.Found? ==>
      && Given(userId) && queryOk
      && r.value == StatsByTicker(store.ByUser(userId.value))
      && r.value.Keys == Tickers(store.ByUser(userId.value))
      && r.value != map[]
  {
    if !Given(userId) {
      return MissingParameter;
    }
    if !queryOk {
      return InternalError;
    }
    var trades := store.ByUser(userId.value);
    if trades == [] {
      return NotFound;
    }
    var stats := Aggregate(trades);
    assert trades[0].ticker in stats;
    return Found(stats);
  }

  /** get_historical_trades: the user's trades in store order. */
  method GetHistoricalTrades(store: TradeStore, userId: Option<string>, queryOk: bool)
    returns (r: Answer<seq<HistoryEntry>>)
    ensures r == MissingParameter <==> userId.None? || userId.value == ""
    ensures r == InternalError <==> userId.Some? && userId.value != "" && !queryOk
    ensures r == NotFound <==> Given(userId) && queryOk && store.ByUser(userId.value) == []
    ensures r.Found? ==>
      && Given(userId) && queryOk
      && var trades := store.ByUser(userId.value);
      && |r.value| == |trades| > 0
      && forall i | 0 <= i < |trades| :: r.value[i] == Entry(trades[i])
  {
    if !Given(userId) {
      return MissingParameter;
    }
    if !queryOk {
      return InternalError;
    }
    var trades := store.ByUser(userId.value);
    if trades == [] {
      return NotFound;
    }
    HistoryFaithful(trades);
    return Found(History(trades));
  }
}
