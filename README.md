# Trading service: a verified model

The trading service accepts trade orders from users and stores each one with a lifecycle status. It also answers two read queries per user: per-ticker statistics (highest and lowest price, total volume, total value, volume-weighted average price) and the list of past trades. The service is one Flask application, `trading_service.py`.

This project models its logic in Dafny:

- `trade.dfy` (module `Trades`): the JSON values a client sends, the validated `Submission`, and the `Trade` record. Its status is `Pending`, `Successful` or `Failed`.
- `validator.dfy` (module `Validator`): the ordered checks of `submit_trade`. The first failing check decides the error.
- `store.dfy` (module `Store`): the trade table as a class `TradeStore` holding `trades: seq<Trade>`. Its methods are create, set-status and the by-user query. Each commit takes a flag that says whether the storage engine's commit succeeds. The class invariant `Valid()` says each record's id is its position in the table, so ids are unique, as the `id` primary key promises (trading_service.py:11). Every method keeps it.
- `workflow.dfy` (module `Workflow`): `submit_trade` as a method. It validates the payload, creates the record as `Pending`, then confirms it as `Successful`. If confirming fails, it marks the record `Failed`.
- `stats.dfy` (module `Stats`): the two-pass aggregation of `get_stats` as a method over a `map`. It is proved equal to a functional specification: filter by ticker, then take the maximum, minimum and sums. Lemmas about that specification cover the price range, the vwap, ticker isolation and order independence.
- `queries.dfy` (module `Queries`): the parameter and not-found guards of both read endpoints, and the history projection.

Where the service's stated intent and its code disagree, the model follows the code:

- **Volume.** The code accepts a float volume (`isinstance(..., (int, float))`, trading_service.py:34). So the model's volume is a positive real, not an integer.
- **Both commits fail.** The commit of `successful` can fail, and then the commit of `failed` can fail too. The outer handler then rolls back and answers with the generic internal error. The committed record stays `Pending` (trading_service.py:67-77). The service intends that every record ends `Successful` or `Failed`; the code does not guarantee that. `Workflow.SubmitTrade` states exactly when this happens.
- **`user_id` and `ticker`.** The code never checks their type, so the model carries them as the JSON value the client sent.
- **Side error.** The error for a bad side is called `InvalidSide` here, after what it reports (trading_service.py:38-40).

## Model

| member | source | states |
|---|---|---|
| `Validator.FirstFailing` | trading_service.py:26-35 | The index of the first field that fails its check, or the length when all pass. Every earlier field passes and the field at that index fails. |
| `Validator.Validate` | trading_service.py:26-47 | Accepts exactly when all five fields are present, price and volume are positive numbers, and side is exactly "buy" or "sell". Names the first missing field in the order user_id, ticker, side, price, volume. Otherwise names price before volume as the non-positive number. Then reports a bad side. An accepted submission carries the payload's values. |
| `Validator.PositiveNumber` | trading_service.py:34 | Only an int or a float can pass: strings such as `"5"`, null, lists and objects are not positive numbers. |
| `Validator.IsSide` | trading_service.py:38-40 | Only the strings `"buy"` and `"sell"` pass, spelled exactly: any other string (`"Buy"`, `" sell"`) and any non-string fail. |
| `Validator.AsReal` | trading_service.py:34 | The number a positive int or float payload value stands for is strictly positive. |
| `Store.OwnedBy` | trading_service.py:89 | The query result holds exactly the records of that user. |
| `Store.OwnedByConcat` | trading_service.py:89 | In the order the model's store returns records (insertion order): over a concatenation the query returns the first part's records, then the second's. |
| `Store.OwnedByIncreasing` | trading_service.py:89 | Filtering by owner keeps the records ordered by strictly increasing id. |
| `Store.EvolvesTransitive` | trading_service.py:49-72 | Records are never removed, rewritten or sent back to `Pending`. This holds across any sequence of steps that each keep it. |
| `Store.TradeStore.constructor` | trading_service.py:10-18 | An empty table. |
| `Store.TradeStore.Create` | trading_service.py:42-54 | A successful commit appends the submission's record with status `Pending`, the next id and the store's time. A failed commit is rolled back: no record, no id. |
| `Store.TradeStore.SetStatus` | trading_service.py:62-63 | A successful commit changes that record's status and nothing else. A failed commit changes nothing. |
| `Store.TradeStore.ByUser` | trading_service.py:89 | The user's records, exactly, in the order the model's store returns them (insertion order). |
| `Store.TradeStore.ByUserDistinct` | trading_service.py:11 | Because `id` is the primary key, the by-user query lists each record at most once, ordered by id; so the history lists each trade once. |
| `Workflow.SubmitTrade` | trading_service.py:20-77 | A rejected payload touches no record. A failed create leaves no record and yields `InternalError`. Otherwise exactly one record is added with the payload's values. `Confirmed` holds iff its status is `Successful` (iff the confirm step succeeds). `MarkedFailed` holds iff its status is `Failed`. `InternalError` holds iff it stays `Pending`. Statuses only leave `Pending`. |
| `Stats.StatsByTicker` | trading_service.py:96-114 | The statistics map has exactly one key per ticker that occurs among the trades. |
| `Stats.ForTickerMembers` | trading_service.py:97-99 | A ticker's group holds exactly the trades of that ticker. |
| `Stats.ForTickerNonEmpty` | trading_service.py:99-105 | Every ticker that occurs has at least one trade, which opens its accumulator. |
| `Stats.MaxPriceIsMaximum` | trading_service.py:101-107 | `highest_price` is the price of one of the ticker's trades, and no trade of that ticker is priced higher. |
| `Stats.MinPriceIsMinimum` | trading_service.py:102-108 | `lowest_price` is the price of one of the ticker's trades, and no trade of that ticker is priced lower. |
| `Stats.SumVolumePositive` | trading_service.py:103-109 | The total volume of a ticker is positive, so the vwap guard never fires on stored trades. |
| `Stats.LowestAtMostHighest` | trading_service.py:99-108 | For every ticker, lowest price ≤ highest price. |
| `Stats.SingleTrade` | trading_service.py:99-114 | A one-trade ticker reports that trade's price as highest, lowest and vwap. Its totals are that trade's volume and price times volume. |
| `Stats.VwapWeighted` | trading_service.py:113-114 | vwap times total volume equals total value. |
| `Stats.ValueAtLeast` | trading_service.py:104-110 | If every price is at least `lo`, the total value is at least `lo` times the total volume. |
| `Stats.ValueAtMost` | trading_service.py:104-110 | If every price is at most `hi`, the total value is at most `hi` times the total volume. |
| `Stats.VwapWithinRange` | trading_service.py:99-114 | The vwap lies between the ticker's lowest and highest price. |
| `Stats.TickerIsolation` | trading_service.py:97-110 | A trade of another ticker leaves a ticker's statistics unchanged. |
| `Stats.TickerDependsOnlyOnGroup` | trading_service.py:96-114 | A ticker's statistics are decided by the multiset of that ticker's trades alone: two inputs with the same trades of that ticker give it the same entry, whatever else they hold and in whatever order. |
| `Stats.TwoTradeExample` | trading_service.py:96-114 | Trades (X, 10, 2) and (X, 20, 2) give highest 20, lowest 10, volume 4, value 60, vwap 15. |
| `Stats.ForTickerCount` | trading_service.py:97-99 | Grouping keeps each trade of the ticker as often as it occurs in the input, and drops the rest. |
| `Stats.ForTickerPermutation` | trading_service.py:97-99 | Reordering the input only reorders each ticker's group. |
| `Stats.SumsOfConcat` | trading_service.py:103-110 | Volume and value totals add up over a concatenation. |
| `Stats.SumsWithout` | trading_service.py:103-110 | Removing one trade lowers the volume and value totals by exactly that trade's volume and value. |
| `Stats.SumsOfPermutation` | trading_service.py:103-110 | Volume and value totals do not depend on the order of the trades. |
| `Stats.StatsOfPermutation` | trading_service.py:99-114 | A ticker's statistics do not depend on the order of its trades. |
| `Stats.OrderIndependent` | trading_service.py:96-114 | Reordering the input (same multiset of trades) gives the same statistics map. |
| `Stats.Open` | trading_service.py:99-105 | The accumulator a ticker's first trade opens is the specified accumulator of that one trade. |
| `Stats.Fold` | trading_service.py:106-110 | The updated highest price is the larger of the old one and the trade's price, the lowest the smaller. The volume and value totals grow by exactly the trade's volume and price times volume. |
| `Stats.AccOfSnoc` | trading_service.py:99-110 | The first trade of a ticker opens its accumulator with that trade's price, volume and value. Each later trade updates the running max, running min and both sums. |
| `Stats.FirstPassStep` | trading_service.py:97-110 | One iteration of the first loop keeps the invariant: every ticker seen so far has the accumulator of exactly its trades so far. |
| `Stats.FinishAll` | trading_service.py:113-114 | Adding `total_value / total_volume` (0 when the volume is 0) to every accumulator gives the specified statistics. |
| `Stats.Aggregate` | trading_service.py:95-114 | The two loops of `get_stats` compute exactly `StatsByTicker` of the input. |
| `Queries.History` | trading_service.py:138-145 | The listing has one entry per trade. |
| `Queries.HistoryAt` | trading_service.py:138-145 | Entry `i` is the projection of trade `i`: store order is kept. |
| `Queries.HistoryFaithful` | trading_service.py:138-145 | Each entry carries its trade's timestamp, ticker, side, price, volume and status. |
| `Queries.GetStats` | trading_service.py:80-120 | An absent or empty `user_id` gives `MissingParameter`. A failed query gives the generic error. A user without trades gives `NotFound`, never an empty map. Otherwise the answer is the statistics of the user's trades, one key per ticker. |
| `Queries.GetHistoricalTrades` | trading_service.py:123-151 | The same guards as `GetStats`. Otherwise it answers one entry per user trade, in store order, each projected from its trade. |

## Left out

- HTTP transport is not modelled: the Flask app, routing, `request.get_json`/`request.args`, `jsonify`, response bodies and status codes (trading_service.py:1-8, 20-23, 79-82, 122-125). Each endpoint's answer is a tagged outcome.
- SQLAlchemy session mechanics are not modelled. Each commit's success is an explicit flag. The flush, refresh and commit of the confirm step (lines 59-63) are one flag, because any of them failing takes the same handler.
- Storage-engine behaviour is not modelled: SQLite's type coercion of columns, the declared column lengths (`String(50)`, `String(10)`) and autoincrement gaps. Ids are the insertion index, and values are stored as given.
- Store.TradeStore.ByUser: returns the user's records in insertion order. The source's query (lines 89, 131) has no `ORDER BY`, so its order is whatever the database's scan yields, not a guarantee. `GetHistoricalTrades` is stated against whatever `ByUser` returns, and the statistics do not depend on the order (`Stats.OrderIndependent`).
- `db.func.now()` (line 48) is a `Timestamp` parameter supplied by the caller.
- The `print` logging in the exception handlers (lines 68, 75, 119, 150) is left out.
- Floating point is not modelled: prices, volumes and totals are exact reals (lines 15, 104, 110, 114).
- Validator.Validate: accepts exactly the finite positive numbers as price and volume. The source's check at line 34 also accepts a JSON `NaN` or `Infinity`: Python reads them as floats, and neither compares `<= 0`. `Value` cannot hold them, so the model does not capture these accepted non-finite inputs.
- Python typing accidents are not modelled: `bool` counts as `int` for `isinstance`, and a body that is not JSON makes `data` `None` (lines 23, 34). Booleans are `Other` values, which the validator rejects as numbers.
- Failures of the aggregation code itself (the `except` of lines 118-120 beyond a failed query) are not modelled: the aggregation is total in the model.
- Concurrency between requests, app startup, CORS and `db.create_all` (lines 5-8, 153-156) are not modelled.
