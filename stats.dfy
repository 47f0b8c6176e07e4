/**
 * Per-ticker statistics over one user's trades (trading_service.py,
 * get_stats, lines 95-114): price range, total volume, total value and
 * the volume-weighted average price of each ticker.
 *
 * The specification is a set of functions on the trade sequence, each
 * defined on its last element so that it follows the single streaming pass;
 * `Aggregate` is that pass and is proved equal to `StatsByTicker`.
 */
module Stats {
  import opened Trades

  /** The statistics reported for one ticker. */
  datatype TickerStats = TickerStats(
    highestPrice: real,
    lowestPrice: real,
    totalVolume: real,
    totalValue: real,
    vwap: real)

  /** The running accumulator of the first pass (no vwap yet). */
  datatype Acc = Acc(highestPrice: real, lowestPrice: real, totalVolume: real, totalValue: real)

  function Last(s: seq<Trade>): Trade
    requires s != []
  {
    s[|s| - 1]
  }

  function Init(s: seq<Trade>): seq<Trade>
    requires s != []
  {
    s[..|s| - 1]
  }

  /** The trades of ticker `k`, in input order. */
  function ForTicker(s: seq<Trade>, k: Value): seq<Trade>
  {
    if s == [] then []
    else if Last(s).ticker == k then ForTicker(Init(s), k) + [Last(s)]
    else ForTicker(Init(s), k)
  }

  /** The tickers that occur in `s`. */
  function Tickers(s: seq<Trade>): set<Value>
  {
    set t | t in s :: t.ticker
  }

  function ValueOf(t: Trade): real
  {
    t.price * t.volume
  }

  function MaxPrice(s: seq<Trade>): real
    requires s != []
  {
    if |s| == 1 then s[0].price
    else
      var m0 := MaxPrice(Init(s));
      if m0 < Last(s).price then Last(s).price else m0
  }

  function MinPrice(s: seq<Trade>): real
    requires s != []
  {
    if |s| == 1 then s[0].price
    else
      var m0 := MinPrice(Init(s));
      if Last(s).price < m0 then Last(s).price else m0
  }

  function SumVolume(s: seq<Trade>): real
  {
    if s == [] then 0.0 else SumVolume(Init(s)) + Last(s).volume
  }

  function SumValue(s: seq<Trade>): real
  {
    if s == [] then 0.0 else SumValue(Init(s)) + ValueOf(Last(s))
  }

  /** Total value over total volume, and 0 when the volume is 0. */
  function Vwap(value: real, volume: real): real
  {
    if volume != 0.0 then value / volume else 0.0
  }

  /** The accumulator after the trades `s` of one ticker. */
  function AccOf(s: seq<Trade>): Acc
    requires s != []
  {
    Acc(MaxPrice(s), MinPrice(s), SumVolume(s), SumValue(s))
  }

  /** The reported statistics of one ticker's trades `s`. */
  function StatsOf(s: seq<Trade>): TickerStats
    requires s != []
  {
    TickerStats(MaxPrice(s), MinPrice(s), SumVolume(s), SumValue(s), Vwap(SumValue(s), SumVolume(s)))
  }

  /** The specification of get_stats: one entry per ticker of `s`, computed
      from that ticker's trades only. */
  function StatsByTicker(s: seq<Trade>): (m: map<Value, TickerStats>)
    ensures m.Keys == Tickers(s)
  {
    map k | k in Tickers(s) :: ForTickerNonEmpty(s, k); StatsOf(ForTicker(s, k))
  }

  lemma ForTickerNonEmpty(s: seq<Trade>, k: Value)
    requires k in Tickers(s)
    ensures ForTicker(s, k) != []
  {
    var t :| t in s && t.ticker == k;
    ForTickerMembers(s, k);
    assert t in ForTicker(s, k);
  }

  // ---------------------------------------------------------------------
  // Properties of the specification

  /** `ForTicker` keeps exactly the trades of ticker `k`. */
  lemma {:induction false} ForTickerMembers(s: seq<Trade>, k: Value)
    ensures forall t :: t in ForTicker(s, k) <==> t in s && t.ticker == k
  {
    if s != [] {
      ForTickerMembers(Init(s), k);
      assert s == Init(s) + [Last(s)];
    }
  }

  /** The highest price is the price of one of the trades and no trade's
      price exceeds it. */
  lemma {:induction false} MaxPriceIsMaximum(s: seq<Trade>)
    requires s != []
    ensures forall t | t in s :: t.price <= MaxPrice(s)
    ensures exists t | t in s :: t.price == MaxPrice(s)
  {
    if |s| == 1 {
      assert s[0] in s;
    } else {
      MaxPriceIsMaximum(Init(s));
      assert s == Init(s) + [Last(s)];
      var w :| w in Init(s) && w.price == MaxPrice(Init(s));
      assert w in s && Last(s) in s;
    }
  }

  /** The lowest price is the price of one of the trades and no trade's
      price is below it. */
  lemma {:induction false} MinPriceIsMinimum(s: seq<Trade>)
    requires s != []
    ensures forall t | t in s :: MinPrice(s) <= t.price
    ensures exists t | t in s :: t.price == MinPrice(s)
  {
    if |s| == 1 {
      assert s[0] in s;
    } else {
      MinPriceIsMinimum(Init(s));
      assert s == Init(s) + [Last(s)];
      var w :| w in Init(s) && w.price == MinPrice(Init(s));
      assert w in s && Last(s) in s;
    }
  }

  lemma {:induction false} SumVolumePositive(s: seq<Trade>)
    requires s != []
    ensures SumVolume(s) > 0.0
  {
    if |s| > 1 {
      SumVolumePositive(Init(s));
    }
  }

  /** For each ticker the lowest price never exceeds the highest. */
  lemma LowestAtMostHighest(s: seq<Trade>, k: Value)
    requires k in Tickers(s)
    ensures StatsByTicker(s)[k].lowestPrice <= StatsByTicker(s)[k].highestPrice
  {
    var r := ForTicker(s, k);
    var t :| t in s && t.ticker == k;
    ForTickerMembers(s, k);
    assert t in r;
    MaxPriceIsMaximum(r);
    MinPriceIsMinimum(r);
  }

  /** A ticker with a single trade reports that trade's price as highest,
      lowest and average price. */
  lemma SingleTrade(t: Trade)
    ensures StatsOf([t]) == TickerStats(t.price, t.price, t.volume, t.price * t.volume, t.price)
  {
    assert Init([t]) == [] && Last([t]) == t;
    assert SumVolume([t]) == t.volume;
    assert SumValue([t]) == t.price * t.volume;
    assert t.price * t.volume / t.volume == t.price;
  }

  /** The vwap is the weighted average: times the total volume it gives
      the total value. */
  lemma VwapWeighted(s: seq<Trade>)
    requires s != []
    ensures StatsOf(s).totalVolume > 0.0
    ensures StatsOf(s).vwap * StatsOf(s).totalVolume == StatsOf(s).totalValue
  {
    SumVolumePositive(s);
  }

  /** With every price at least `lo`, the total value is at least `lo`
      times the total volume. */
  lemma {:induction false} ValueAtLeast(s: seq<Trade>, lo: real)
    requires forall i | 0 <= i < |s| :: lo <= s[i].price
    ensures lo * SumVolume(s) <= SumValue(s)
  {
    if s != [] {
      var t := Last(s);
      ValueAtLeast(Init(s), lo);
      LowStep(lo, SumVolume(Init(s)), SumValue(Init(s)), t.price, t.volume, SumVolume(s), SumValue(s));
    }
  }

  /** With every price at most `hi`, the total value is at most `hi`
      times the total volume. */
  lemma {:induction false} ValueAtMost(s: seq<Trade>, hi: real)
    requires forall i | 0 <= i < |s| :: s[i].price <= hi
    ensures SumValue(s) <= hi * SumVolume(s)
  {
    if s != [] {
      var t := Last(s);
      ValueAtMost(Init(s), hi);
      HighStep(hi, SumVolume(Init(s)), SumValue(Init(s)), t.price, t.volume, SumVolume(s), SumValue(s));
    }
  }

  /** Totals `volume'` and `value'` that add a trade of price `p` and
      volume `v` to totals bounded below by `lo` stay bounded below. */
  lemma LowStep(lo: real, volume: real, value: real, p: real, v: real, volume': real, value': real)
    requires lo * volume <= value && lo <= p && 0.0 < v
    requires volume' == volume + v && value' == value + p * v
    ensures lo * volume' <= value'
  {
    ScaleMonotone(lo, p, v);
    Distribute(lo, volume, v);
  }

  /** The same step for a bound `hi` from above. */
  lemma HighStep(hi: real, volume: real, value: real, p: real, v: real, volume': real, value': real)
    requires value <= hi * volume && p <= hi && 0.0 < v
    requires volume' == volume + v && value' == value + p * v
    ensures value' <= hi * volume'
  {
    ScaleMonotone(p, hi, v);
    Distribute(hi, volume, v);
  }

  lemma ScaleMonotone(x: real, y: real, v: real)
    requires x <= y && 0.0 <= v
    ensures x * v <= y * v
  {
  }

  lemma Distribute(x: real, a: real, b: real)
    ensures x * (a + b) == x * a + x * b
  {
  }

  /** The vwap of a ticker lies between its lowest and highest price. */
  lemma VwapWithinRange(s: seq<Trade>)
    requires s != []
    ensures StatsOf(s).lowestPrice <= StatsOf(s).vwap <= StatsOf(s).highestPrice
  {
    var lo, hi, vol, value := MinPrice(s), MaxPrice(s), SumVolume(s), SumValue(s);
    MaxPriceIsMaximum(s);
    MinPriceIsMinimum(s);
    assert forall i | 0 <= i < |s| :: s[i] in s;
    SumVolumePositive(s);
    ValueAtLeast(s, lo);
    ValueAtMost(s, hi);
    DivisionBounds(lo, hi, value, vol);
  }

  lemma DivisionBounds(lo: real, hi: real, value: real, vol: real)
    requires vol > 0.0 && lo * vol <= value <= hi * vol
    ensures lo <= value / vol <= hi
  {
    assert value / vol * vol == value;
  }

  /** A trade of another ticker leaves the statistics of `k` unchanged. */
  lemma TickerIsolation(s: seq<Trade>, t: Trade, k: Value)
    requires k in Tickers(s) && t.ticker != k
    ensures k in StatsByTicker(s + [t])
    ensures StatsByTicker(s + [t])[k] == StatsByTicker(s)[k]
  {
    assert Init(s + [t]) == s;
    assert ForTicker(s + [t], k) == ForTicker(s, k);
  }

  /** A ticker's statistics depend only on the multiset of that ticker's
      trades: whatever else the inputs hold, and in whatever order. */
  lemma TickerDependsOnlyOnGroup(a: seq<Trade>, b: seq<Trade>, k: Value)
    requires k in Tickers(a) && k in Tickers(b)
    requires multiset(ForTicker(a, k)) == multiset(ForTicker(b, k))
    ensures StatsByTicker(a)[k] == StatsByTicker(b)[k]
  {
    ForTickerNonEmpty(a, k);
    StatsOfPermutation(ForTicker(a, k), ForTicker(b, k));
  }

  /** Two trades of one ticker at 10 and 20, two units each: prices 20
      and 10, volume 4, value 60, vwap 15. */
  lemma TwoTradeExample(u: Value)
    ensures
      var x := Str("X");
      var s := [Trade(0, u, x, Buy, 10.0, 2.0, 0, Successful),
                Trade(1, u, x, Sell, 20.0, 2.0, 1, Successful)];
      StatsByTicker(s) == map[x := TickerStats(20.0, 10.0, 4.0, 60.0, 15.0)]
  {
    var x := Str("X");
    var t0 := Trade(0, u, x, Buy, 10.0, 2.0, 0, Successful);
    var t1 := Trade(1, u, x, Sell, 20.0, 2.0, 1, Successful);
    var s := [t0, t1];
    assert Init(s) == [t0] && Init([t0]) == [];
    assert forall t :: t in s <==> t == t0 || t == t1;
    assert Tickers(s) == {x};
    assert ForTicker([t0], x) == [t0];
    assert ForTicker(s, x) == s;
    assert MaxPrice(s) == 20.0 && MinPrice(s) == 10.0;
    assert SumVolume([t0]) == 2.0 && SumValue([t0]) == 20.0;
    assert SumVolume(s) == 4.0 && SumValue(s) == 60.0;
    assert Vwap(60.0, 4.0) == 15.0;
  }

  // ---------------------------------------------------------------------
  // The statistics do not depend on the order of the trades

  lemma {:induction false} ForTickerCount(s: seq<Trade>, k: Value, x: Trade)
    ensures multiset(ForTicker(s, k))[x] == if x.ticker == k then multiset(s)[x] else 0
  {
    if s != [] {
      ForTickerCount(Init(s), k, x);
      assert s == Init(s) + [Last(s)];
    }
  }

  lemma ForTickerPermutation(a: seq<Trade>, b: seq<Trade>, k: Value)
    requires multiset(a) == multiset(b)
    ensures multiset(ForTicker(a, k)) == multiset(ForTicker(b, k))
  {
    forall x
      ensures multiset(ForTicker(a, k))[x] == multiset(ForTicker(b, k))[x]
    {
      ForTickerCount(a, k, x);
      ForTickerCount(b, k, x);
    }
  }

  lemma {:induction false} SumsOfConcat(a: seq<Trade>, b: seq<Trade>)
    ensures SumVolume(a + b) == SumVolume(a) + SumVolume(b)
    ensures SumValue(a + b) == SumValue(a) + SumValue(b)
  {
    if b != [] {
      assert Init(a + b) == a + Init(b);
      SumsOfConcat(a, Init(b));
    } else {
      assert a + b == a;
    }
  }

  /** Taking trade `j` out of `b` lowers the totals by its volume and value. */
  lemma SumsWithout(b: seq<Trade>, j: nat)
    requires j < |b|
    ensures SumVolume(b) == SumVolume(b[..j] + b[j + 1..]) + b[j].volume
    ensures SumValue(b) == SumValue(b[..j] + b[j + 1..]) + ValueOf(b[j])
  {
    var left, x, right := b[..j], b[j], b[j + 1..];
    assert b == (left + [x]) + right;
    SumsOfConcat(left, right);
    SumsOfConcat(left + [x], right);
    SumsOfConcat(left, [x]);
    assert Init([x]) == [];
  }

  /** Taking an occurrence of `x` out of `b` leaves the multiset of `b`
      without one `x`. */
  lemma MultisetWithout(b: seq<Trade>, j: nat)
    requires j < |b|
    ensures multiset(b[..j] + b[j + 1..]) == multiset(b) - multiset{b[j]}
  {
    assert b == b[..j] + [b[j]] + b[j + 1..];
  }

  lemma {:induction false} SumsOfPermutation(a: seq<Trade>, b: seq<Trade>)
    requires multiset(a) == multiset(b)
    ensures SumVolume(a) == SumVolume(b) && SumValue(a) == SumValue(b)
    decreases |a|
  {
    if a == [] {
      assert |multiset(b)| == 0;
    } else {
      var x := Last(a);
      MultisetWithout(a, |a| - 1);
      assert Init(a) == a[..|a| - 1] + a[|a|..];
      assert x in multiset(b);
      var j :| 0 <= j < |b| && b[j] == x;
      MultisetWithout(b, j);
      SumsOfPermutation(Init(a), b[..j] + b[j + 1..]);
      SumsWithout(b, j);
    }
  }

  lemma StatsOfPermutation(a: seq<Trade>, b: seq<Trade>)
    requires a != [] && multiset(a) == multiset(b)
    ensures b != [] && StatsOf(a) == StatsOf(b)
  {
    assert forall t :: t in a <==> t in multiset(a);
    assert forall t :: t in b <==> t in multiset(b);
    assert forall t :: t in a <==> t in b;
    assert b != [] by { assert a[0] in b; }
    MaxPriceIsMaximum(a);
    MaxPriceIsMaximum(b);
    MinPriceIsMinimum(a);
    MinPriceIsMinimum(b);
    assert MaxPrice(a) == MaxPrice(b) by {
      var ta :| ta in a && ta.price == MaxPrice(a);
      var tb :| tb in b && tb.price == MaxPrice(b);
      assert ta.price <= MaxPrice(b) && tb.price <= MaxPrice(a);
    }
    assert MinPrice(a) == MinPrice(b) by {
      var ta :| ta in a && ta.price == MinPrice(a);
      var tb :| tb in b && tb.price == MinPrice(b);
      assert MinPrice(b) <= ta.price && MinPrice(a) <= tb.price;
    }
    SumsOfPermutation(a, b);
  }

  /** Reordering the trades does not change the statistics. */
  lemma OrderIndependent(a: seq<Trade>, b: seq<Trade>)
    requires multiset(a) == multiset(b)
    ensures StatsByTicker(a) == StatsByTicker(b)
  {
    assert forall t :: t in a <==> t in multiset(a);
    assert forall t :: t in b <==> t in multiset(b);
    assert Tickers(a) == Tickers(b);
    forall k | k in Tickers(a)
      ensures StatsByTicker(a)[k] == StatsByTicker(b)[k]
    {
      ForTickerPermutation(a, b, k);
      ForTickerNonEmpty(a, k);
      StatsOfPermutation(ForTicker(a, k), ForTicker(b, k));
    }
  }

  // ---------------------------------------------------------------------
  // The two passes of get_stats

  /** The accumulator opened by the first trade of a ticker. */
  function Open(t: Trade): (a: Acc)
    ensures a == AccOf([t])
  {
    assert Init([t]) == [] && Last([t]) == t;
    assert SumVolume([t]) == SumVolume([]) + t.volume;
    assert SumValue([t]) == SumValue([]) + ValueOf(t);
    Acc(t.price, t.price, t.volume, t.price * t.volume)
  }

  /** The accumulator updated with one more trade: running maximum and
      minimum of the price, running sums of volume and value. */
  function Fold(a: Acc, t: Trade): (b: Acc)
    ensures a.highestPrice <= b.highestPrice && t.price <= b.highestPrice
    ensures b.highestPrice == a.highestPrice || b.highestPrice == t.price
    ensures b.lowestPrice <= a.lowestPrice && b.lowestPrice <= t.price
    ensures b.lowestPrice == a.lowestPrice || b.lowestPrice == t.price
    ensures b.totalVolume == a.totalVolume + t.volume
    ensures b.totalValue == a.totalValue + ValueOf(t)
  {
    Acc(if a.highestPrice < t.price then t.price else a.highestPrice,
        if t.price < a.lowestPrice then t.price else a.lowestPrice,
        a.totalVolume + t.volume,
        a.totalValue + t.price * t.volume)
  }

  /** One step of the first pass: the accumulator after one more trade of
      the ticker. */
  lemma AccOfSnoc(r: seq<Trade>, t: Trade)
    ensures AccOf(r + [t]) == if r == [] then Open(t) else Fold(AccOf(r), t)
  {
    var s := r + [t];
    assert Init(s) == r && Last(s) == t;
    if r == [] {
      assert s == [t];
      assert SumVolume(s) == t.volume && SumValue(s) == t.price * t.volume;
    } else {
      assert |s| != 1;
      assert MaxPrice(s) == if MaxPrice(r) < t.price then t.price else MaxPrice(r);
      assert MinPrice(s) == if t.price < MinPrice(r) then t.price else MinPrice(r);
      assert SumVolume(s) == SumVolume(r) + t.volume;
      assert SumValue(s) == SumValue(r) + t.price * t.volume;
    }
  }

  lemma TickersSnoc(s: seq<Trade>, t: Trade)
    ensures Tickers(s + [t]) == Tickers(s) + {t.ticker}
  {
    assert forall u :: u in s + [t] <==> u in s || u == t;
  }

  lemma ForTickerSnoc(s: seq<Trade>, t: Trade, k: Value)
    ensures ForTicker(s + [t], k) == if t.ticker == k then ForTicker(s, k) + [t] else ForTicker(s, k)
  {
    assert Init(s + [t]) == s && Last(s + [t]) == t;
  }

  /** The accumulator of ticker `k` in `acc` is that of its trades in `s`. */
  ghost predicate AccurateFor(acc: map<Value, Acc>, s: seq<Trade>, k: Value)
  {
    k in acc && ForTicker(s, k) != [] && acc[k] == AccOf(ForTicker(s, k))
  }

  /** `acc` holds the accumulator of every ticker seen in `s`. */
  ghost predicate Accumulates(acc: map<Value, Acc>, s: seq<Trade>)
  {
    && acc.Keys == Tickers(s)
    && forall k {:trigger AccurateFor(acc, s, k)} | k in acc :: AccurateFor(acc, s, k)
  }

  /** The first pass's loop body keeps `Accumulates`: it opens an
      accumulator for a new ticker and updates the one of a known ticker. */
  lemma FirstPassStep(acc: map<Value, Acc>, s: seq<Trade>, t: Trade)
    requires Accumulates(acc, s)
    ensures Accumulates(acc[t.ticker := if t.ticker in acc then Fold(acc[t.ticker], t) else Open(t)], s + [t])
  {
    var next := acc[t.ticker := if t.ticker in acc then Fold(acc[t.ticker], t) else Open(t)];
    TickersSnoc(s, t);
    forall k | k in next
      ensures AccurateFor(next, s + [t], k)
    {
      ForTickerSnoc(s, t, k);
      assert k != t.ticker ==> AccurateFor(acc, s, k);
      assert k == t.ticker && t.ticker in acc ==> AccurateFor(acc, s, k);
      if k == t.ticker {
        if t.ticker !in acc && ForTicker(s, k) != [] {
          ForTickerMembers(s, k);
          assert ForTicker(s, k)[0] in ForTicker(s, k);
          assert false;
        }
        AccOfSnoc(ForTicker(s, k), t);
      }
    }
  }

  /** The reported statistics of an accumulator: its fields and the vwap. */
  function Finish(a: Acc): TickerStats
  {
    TickerStats(a.highestPrice, a.lowestPrice, a.totalVolume, a.totalValue, Vwap(a.totalValue, a.totalVolume))
  }

  /** Finishing every accumulator of `s` gives the specified statistics. */
  lemma FinishAll(acc: map<Value, Acc>, s: seq<Trade>, stats: map<Value, TickerStats>)
    requires Accumulates(acc, s)
    requires stats.Keys == acc.Keys
    requires forall k | k in stats :: stats[k] == Finish(acc[k])
    ensures stats == StatsByTicker(s)
  {
    var spec := StatsByTicker(s);
    forall k | k in stats
      ensures stats[k] == spec[k]
    {
      assert AccurateFor(acc, s, k);
    }
  }

  /**
   * The aggregation of get_stats: a first pass builds one accumulator per
   * ticker from its first trade and updates it with every later one; a
   * second pass turns each accumulator into the reported statistics,
   * adding the vwap.
   */
  method Aggregate(trades: seq<Trade>) returns (stats: map<Value, TickerStats>)
    ensures stats == StatsByTicker(trades)
  {
    var acc: map<Value, Acc> := map[];
    for i := 0 to |trades|
      invariant Accumulates(acc, trades[..i])
    {
      var t := trades[i];
      FirstPassStep(acc, trades[..i], t);
      if t.ticker !in acc {
        acc := acc[t.ticker := Open(t)];
      } else {
        acc := acc[t.ticker := Fold(acc[t.ticker], t)];
      }
      assert trades[..i + 1] == trades[..i] + [t];
    }
    assert trades[..|trades|] == trades;

    stats := map[];
    var remaining := acc.Keys;
    while remaining != {}
      invariant remaining <= acc.Keys
      invariant stats.Keys == acc.Keys - remaining
      invariant forall k | k in stats :: stats[k] == Finish(acc[k])
      decreases remaining
    {
      var k :| k in remaining;
      var a := acc[k];
      var vwap := if a.totalVolume != 0.0 then a.totalValue / a.totalVolume else 0.0;
      stats := stats[k := TickerStats(a.highestPrice, a.lowestPrice, a.totalVolume, a.totalValue, vwap)];
      remaining := remaining - {k};
    }
    FinishAll(acc, trades, stats);
  }
}
