/** GBCETrading: read-only queries over a registry view. Each query is a function of the view,
    its arguments and, for the trailing window, the current time `now` (in seconds). A result of
    `Success(None)` is Python's `None` ("undefined"); `Failure` is a raised exception. */
module Metrics {
  import opened Wrappers
  import opened Ledger

  /** GBCETrading(stocks): a missing or empty mapping falls back to the exchange-wide registry;
      any non-empty mapping is used as given. */
  function EngineStocks(given: Option<Stocks>, registry: Stocks): (view: Stocks)
    ensures given.Some? && |given.value| > 0 ==> view == given.value
    ensures given.None? || |given.value| == 0 ==> view == registry
  {
    match given
    case Some(m) => if |m| > 0 then m else registry
    case None => registry
  }

  // ---------------------------------------------------------------- dividend yield

  /** getDividendYield. The symbol is checked before the price. A Common stock yields
      lastDividend/price; every other type yields fixedDividend*parValue/price, and raises
      TypeError when the fixed dividend is missing (even at price 0). Price 0 is undefined. */
  function DividendYield(stocks: Stocks, symbol: string, price: real): (r: Result<Option<real>, Error>)
    ensures symbol !in stocks ==> r == Failure(UnknownSymbol(symbol))
    ensures symbol in stocks && price < 0.0 ==> r == Failure(NegativePrice(price))
    ensures r.Failure? <==>
              symbol !in stocks || price < 0.0
              || (stocks[symbol].kind != Common && stocks[symbol].fixedDividend.None?)
    ensures symbol in stocks && price >= 0.0 && r.Failure? ==> r.error == MissingFixedDividend
    ensures r.Success? ==> (r.value.None? <==> price == 0.0)
    ensures r.Success? && r.value.Some? && stocks[symbol].kind == Common ==>
              r.value.value * price == stocks[symbol].lastDividend
    ensures r.Success? && r.value.Some? && stocks[symbol].kind != Common ==>
              r.value.value * price == stocks[symbol].fixedDividend.value * stocks[symbol].parValue
  {
    if symbol !in stocks then Failure(UnknownSymbol(symbol))
    else if price < 0.0 then Failure(NegativePrice(price))
    else
      var s := stocks[symbol];
      if s.kind == Common then
        if price == 0.0 then Success(None) else Success(Some(s.lastDividend / price))
      else
        match s.fixedDividend
        case None => Failure(MissingFixedDividend)
        case Some(fd) => if price == 0.0 then Success(None) else Success(Some(fd * s.parValue / price))
  }

  // ---------------------------------------------------------------- P/E ratio

  /** getPERatio: the same symbol and price checks, then price divided by the dividend yield.
      The TypeError of a missing fixed dividend and of an undefined yield, and the division by a
      zero yield, are all caught and give `None`. */
  function PERatio(stocks: Stocks, symbol: string, price: real): (r: Result<Option<real>, Error>)
    ensures symbol !in stocks ==> r == Failure(UnknownSymbol(symbol))
    ensures symbol in stocks && price < 0.0 ==> r == Failure(NegativePrice(price))
    ensures r.Failure? <==> symbol !in stocks || price < 0.0
    ensures r.Success? ==>
              (r.value.Some? <==> var y := DividendYield(stocks, symbol, price);
                                  y.Success? && y.value.Some? && y.value.value != 0.0)
    ensures r.Success? && r.value.Some? ==>
              r.value.value * DividendYield(stocks, symbol, price).value.value == price
  {
    if symbol !in stocks then Failure(UnknownSymbol(symbol))
    else if price < 0.0 then Failure(NegativePrice(price))
    else
      match DividendYield(stocks, symbol, price)
      case Failure(e) => if e == MissingFixedDividend then Success(None) else Failure(e)
      case Success(None) => Success(None)
      case Success(Some(y)) => if y == 0.0 then Success(None) else Success(Some(price / y))
  }

  /** For a Common stock with a non-zero last dividend and a positive price the P/E ratio is
      price squared over the last dividend. */
  lemma PERatioOfCommon(stocks: Stocks, symbol: string, price: real)
    requires symbol in stocks && stocks[symbol].kind == Common
    requires stocks[symbol].lastDividend != 0.0 && price > 0.0
    ensures PERatio(stocks, symbol, price) == Success(Some(price * price / stocks[symbol].lastDividend))
  {
    var d := stocks[symbol].lastDividend;
    var y := d / price;
    assert y * price == d;
    assert y != 0.0;
    calc {
      price / y;
    ==  { assert (price / y) * y == price; assert y * (price * price / d) == price; }
      price * price / d;
    }
  }

  /** A stock whose fixed dividend is missing has no P/E ratio at any valid price, although its
      dividend yield raises. */
  lemma PERatioOfMissingFixedDividend(stocks: Stocks, symbol: string, price: real)
    requires symbol in stocks && stocks[symbol].kind != Common && stocks[symbol].fixedDividend.None?
    requires price >= 0.0
    ensures DividendYield(stocks, symbol, price) == Failure(MissingFixedDividend)
    ensures PERatio(stocks, symbol, price) == Success(None)
  {
  }

  // ---------------------------------------------------------------- volume-weighted price

  /** A trade counts for the volume-weighted price when it is no older than the window. */
  predicate InWindow(t: Trade, now: int) {
    t.timestamp >= now - WindowSeconds
  }

  /** The trades of the trailing window, in their recorded order. */
  function Recent(trades: seq<Trade>, now: int): (r: seq<Trade>)
    ensures |r| <= |trades|
    ensures forall t :: t in r <==> t in trades && InWindow(t, now)
  {
    if trades == [] then []
    else (if InWindow(trades[0], now) then [trades[0]] else []) + Recent(trades[1..], now)
  }

  /** The filter keeps every copy of a trade in the window, as many times as it was recorded,
      and no copy of any other trade. */
  lemma {:induction false} RecentKeepsEveryCopy(trades: seq<Trade>, now: int)
    ensures forall t :: multiset(Recent(trades, now))[t] == if InWindow(t, now) then multiset(trades)[t] else 0
  {
    if trades != [] {
      RecentKeepsEveryCopy(trades[1..], now);
      assert trades == [trades[0]] + trades[1..];
    }
  }

  /** The sum of the quantities (sum(quantities)). Every trade contributes at least one share, so
      the sum is at least the number of trades and the quotient's divisor is positive. */
  function TotalQuantity(trades: seq<Trade>): (s: int)
    ensures s >= |trades|
  {
    if trades == [] then 0 else trades[0].quantity + TotalQuantity(trades[1..])
  }

  /** The sum of the trades' total prices (sum(tradePrices)): positive as soon as there is a trade. */
  function TotalValue(trades: seq<Trade>): (s: real)
    ensures s >= 0.0
    ensures trades != [] ==> s > 0.0
  {
    if trades == [] then 0.0 else TotalPrice(trades[0]) + TotalValue(trades[1..])
  }

  /** The lowest price among some trades. */
  function MinPrice(trades: seq<Trade>): (p: real)
    requires trades != []
    ensures exists i :: 0 <= i < |trades| && trades[i].price == p
    ensures forall i :: 0 <= i < |trades| ==> p <= trades[i].price
  {
    if |trades| == 1 then trades[0].price
    else
      var rest := MinPrice(trades[1..]);
      if trades[0].price <= rest then trades[0].price else rest
  }

  /** The highest price among some trades. */
  function MaxPrice(trades: seq<Trade>): (p: real)
    requires trades != []
    ensures exists i :: 0 <= i < |trades| && trades[i].price == p
    ensures forall i :: 0 <= i < |trades| ==> trades[i].price <= p
  {
    if |trades| == 1 then trades[0].price
    else
      var rest := MaxPrice(trades[1..]);
      if trades[0].price >= rest then trades[0].price else rest
  }

  /** A unit price applied to a number of shares. */
  function Scale(price: real, shares: int): real {
    price * shares as real
  }

  /** Total value over total quantity: the true division sum(tradePrices) / sum(quantities). */
  function Ratio(value: real, shares: int): real
    requires shares > 0
  {
    value / shares as real
  }

  /** A value bracketed by a number of shares priced at lo and at hi gives a ratio in [lo, hi]. */
  lemma RatioBetween(lo: real, hi: real, value: real, shares: int)
    requires shares > 0 && Scale(lo, shares) <= value <= Scale(hi, shares)
    ensures lo <= Ratio(value, shares) <= hi
  {
    var q := shares as real;
    assert (value / q) * q == value;
  }

  /** One step of the bracketing: adding a trade priced within [lo, hi] to a bracketed total. */
  lemma StepBetween(lo: real, hi: real, t: Trade, shares: int, value: real, allShares: int, allValue: real)
    requires lo <= t.price <= hi
    requires Scale(lo, shares) <= value <= Scale(hi, shares)
    requires allShares == t.quantity + shares && allValue == TotalPrice(t) + value
    ensures Scale(lo, allShares) <= allValue <= Scale(hi, allShares)
  {
    var q := t.quantity as real;
    assert lo * q <= q * t.price <= hi * q;
  }

  /** A total value is bracketed by the total quantity priced at any lower and upper bound of
      the unit prices. */
  lemma {:induction false} ValueBetweenPrices(trades: seq<Trade>, lo: real, hi: real)
    requires forall i :: 0 <= i < |trades| ==> lo <= trades[i].price <= hi
    ensures Scale(lo, TotalQuantity(trades)) <= TotalValue(trades) <= Scale(hi, TotalQuantity(trades))
  {
    if trades != [] {
      ValueBetweenPrices(trades[1..], lo, hi);
      StepBetween(lo, hi, trades[0], TotalQuantity(trades[1..]), TotalValue(trades[1..]),
                  TotalQuantity(trades), TotalValue(trades));
    }
  }

  /** The volume-weighted price of one stock's trades: total value over total quantity of the
      trades in the window, undefined exactly when no trade is in the window. */
  function Vwsp(trades: seq<Trade>, now: int): (r: Option<real>)
    ensures r.None? <==> forall t :: t in trades ==> !InWindow(t, now)
  {
    var recent := Recent(trades, now);
    if |recent| > 0 then
      assert recent[0] in recent;
      Some(Ratio(TotalValue(recent), TotalQuantity(recent)))
    else
      None
  }

  /** A defined volume-weighted price is positive and lies between the lowest and the highest
      price of the trades in the window. */
  lemma VwspBetweenPrices(trades: seq<Trade>, now: int)
    requires Vwsp(trades, now).Some?
    ensures var recent := Recent(trades, now);
            var v := Vwsp(trades, now).value;
            recent != [] && 0.0 < MinPrice(recent) <= v <= MaxPrice(recent)
  {
    var recent := Recent(trades, now);
    ValueBetweenPrices(recent, MinPrice(recent), MaxPrice(recent));
    RatioBetween(MinPrice(recent), MaxPrice(recent), TotalValue(recent), TotalQuantity(recent));
  }

  /** A trade built with the default timestamp more than the window after the module was loaded
      is stale at once: recorded alone, it leaves its stock without a price. */
  lemma DefaultTimestampIsStale(symbol: string, quantity: int, side: TradeType, price: real, loadTime: int, now: int)
    requires quantity > 0 && price > 0.0 && now > loadTime + WindowSeconds
    ensures var r := NewTradeWithDefaultTimestamp(symbol, quantity, side, price, loadTime);
            r.Success? && Vwsp([r.value], now) == None
  {
  }

  /** A trade stamped when it is built is in the window, and recorded alone it prices its stock
      at its own unit price. */
  lemma FreshTradeSetsPrice(symbol: string, quantity: int, side: TradeType, price: real, now: int)
    requires quantity > 0 && price > 0.0
    ensures var r := NewTrade(symbol, quantity, side, price, now);
            r.Success? && InWindow(r.value, now) && Vwsp([r.value], now) == Some(price)
  {
    var t := NewTrade(symbol, quantity, side, price, now).value;
    assert [t][1..] == [];
    assert Recent([t], now) == [t];
    assert TotalValue([t]) == TotalPrice(t);
    assert TotalQuantity([t]) == t.quantity;
    TotalPriceRecoversPrice(t);
  }

  /** getVolumeWeightedStockPrice: an unknown symbol raises; otherwise the stock's
      volume-weighted price over the window ending at `now`. */
  function VolumeWeightedStockPrice(stocks: Stocks, symbol: string, now: int): (r: Result<Option<real>, Error>)
    ensures symbol !in stocks <==> r == Failure(UnknownSymbol(symbol))
    ensures r.Failure? <==> symbol !in stocks
    ensures r.Success? ==> r.value == Vwsp(stocks[symbol].trades, now)
    ensures r.Success? ==> (r.value.None? <==> forall t :: t in stocks[symbol].trades ==> !InWindow(t, now))
  {
    if symbol !in stocks then Failure(UnknownSymbol(symbol))
    else Success(Vwsp(stocks[symbol].trades, now))
  }

  // ---------------------------------------------------------------- all-share index

  /** The number product^(1/count): the geometric mean of `count` positive factors whose product
      is `product`. Dafny's reals have no n-th root, so the index is kept in this form. */
  datatype GeometricMean = GeometricMean(product: real, count: nat)

  /** Every stock of the view has a volume-weighted price. */
  ghost predicate AllPriced(stocks: Stocks, now: int) {
    forall k :: k in stocks ==> Vwsp(stocks[k].trades, now).Some?
  }

  /** The volume-weighted price of every stock of a fully priced view. */
  ghost function Prices(stocks: Stocks, now: int): (prices: map<string, real>)
    requires AllPriced(stocks, now)
    ensures prices.Keys == stocks.Keys
    ensures forall k :: k in prices ==> Vwsp(stocks[k].trades, now) == Some(prices[k])
  {
    map k | k in stocks :: Vwsp(stocks[k].trades, now).value
  }

  /** The product of the prices in `keys`, taken in any order (reduce(operator.mul, ..., 1)): the
      initial value 1 for no stock, the price itself for one. */
  ghost function Product(prices: map<string, real>, keys: set<string>): (p: real)
    requires keys <= prices.Keys
    ensures keys == {} ==> p == 1.0
    ensures forall k :: keys == {k} ==> p == prices[k]
    decreases keys
  {
    if keys == {} then 1.0
    else
      var k :| k in keys;
      Times(prices[k], Product(prices, keys - {k}))
  }

  /** The product does not depend on the order in which the stocks are visited: any stock can be
      taken out first. */
  lemma {:induction false} ProductSplit(prices: map<string, real>, keys: set<string>, k: string)
    requires keys <= prices.Keys && k in keys
    ensures Product(prices, keys) == Times(prices[k], Product(prices, keys - {k}))
    decreases keys
  {
    var j :| j in keys && Product(prices, keys) == Times(prices[j], Product(prices, keys - {j}));
    if j != k {
      ProductSplit(prices, keys - {j}, k);
      ProductSplit(prices, keys - {k}, j);
      assert keys - {j} - {k} == keys - {k} - {j};
      var both := Product(prices, keys - {j} - {k});
      MulSwap(prices[j], prices[k], both);
    }
  }

  lemma MulSwap(a: real, b: real, c: real)
    ensures Times(a, Times(b, c)) == Times(b, Times(a, c))
  {
  }

  /** Real multiplication, named so that proofs match products by their factors. */
  function Times(a: real, b: real): real {
    a * b
  }

  /** x raised to the natural power n. */
  function Pow(x: real, n: nat): real {
    if n == 0 then 1.0 else Times(x, Pow(x, n - 1))
  }

  lemma {:induction false} PowNonNegative(x: real, n: nat)
    requires x >= 0.0
    ensures Pow(x, n) >= 0.0
  {
    if n > 0 {
      PowNonNegative(x, n - 1);
      ProductStep(0.0, x, x, Pow(x, n - 1), 0.0, Pow(x, n - 1), Pow(x, n), 0.0, Pow(x, n));
    }
  }

  /** One step of the bracketing of a product: a factor in [lo, hi] times a bracketed product. */
  lemma ProductStep(lo: real, hi: real, v: real, p: real, a: real, b: real, P: real, A: real, B: real)
    requires 0.0 <= lo <= v <= hi && 0.0 <= a <= p <= b
    requires P == Times(v, p) && A == Times(lo, a) && B == Times(hi, b)
    ensures A <= P <= B
  {
    assert lo * a <= v * a <= v * p;
    assert v * p <= hi * p <= hi * b;
  }

  /** The product of prices that all lie in [lo, hi], lo >= 0, lies between lo^|keys| and
      hi^|keys|; with lo > 0 it is positive. */
  lemma {:induction false} ProductBetween(prices: map<string, real>, keys: set<string>, lo: real, hi: real)
    requires keys <= prices.Keys
    requires 0.0 <= lo
    requires forall k :: k in keys ==> lo <= prices[k] <= hi
    ensures Pow(lo, |keys|) <= Product(prices, keys) <= Pow(hi, |keys|)
    decreases keys
  {
    if keys != {} {
      var k :| k in keys;
      var rest := keys - {k};
      ProductSplit(prices, keys, k);
      ProductBetween(prices, rest, lo, hi);
      assert |rest| == |keys| - 1;
      PowNonNegative(lo, |keys| - 1);
      ProductStep(lo, hi, prices[k], Product(prices, rest), Pow(lo, |keys| - 1), Pow(hi, |keys| - 1),
                  Product(prices, keys), Pow(lo, |keys|), Pow(hi, |keys|));
    }
  }

  /** A product of positive prices is positive. */
  lemma {:induction false} ProductPositive(prices: map<string, real>, keys: set<string>)
    requires keys <= prices.Keys
    requires forall k :: k in keys ==> prices[k] > 0.0
    ensures Product(prices, keys) > 0.0
    decreases keys
  {
    if keys != {} {
      var k :| k in keys;
      ProductSplit(prices, keys, k);
      ProductPositive(prices, keys - {k});
      PositiveTimes(prices[k], Product(prices, keys - {k}));
    }
  }

  lemma PositiveTimes(a: real, b: real)
    requires a > 0.0 && b > 0.0
    ensures Times(a, b) > 0.0
  {
  }

  /** getGBCEAllShareIndex: `None` as soon as one stock's volume-weighted price is undefined;
      otherwise the geometric mean of all of them. With no stock at all the final division by
      len(stocks) raises ZeroDivisionError. */
  ghost function AllShareIndex(stocks: Stocks, now: int): (r: Result<Option<GeometricMean>, Error>)
    ensures r.Failure? <==> |stocks| == 0
    ensures r.Failure? ==> r.error == NoStocks
    ensures r.Success? ==> (r.value.None? <==> exists k :: k in stocks && Vwsp(stocks[k].trades, now).None?)
    ensures r.Success? && r.value.Some? ==> r.value.value.count == |stocks|
  {
    if AllPriced(stocks, now) then
      if |stocks| == 0 then Failure(NoStocks)
      else Success(Some(GeometricMean(Product(Prices(stocks, now), stocks.Keys), |stocks|)))
    else Success(None)
  }

  /** The index lies between the lowest and the highest volume-weighted price: when every price
      lies in [lo, hi] with lo >= 0, lo^n <= product <= hi^n, so the n-th root lies in [lo, hi]. */
  lemma IndexBetween(stocks: Stocks, now: int, lo: real, hi: real)
    requires AllShareIndex(stocks, now).Success? && AllShareIndex(stocks, now).value.Some?
    requires 0.0 <= lo
    requires forall k :: k in stocks ==> lo <= Vwsp(stocks[k].trades, now).value <= hi
    ensures var g := AllShareIndex(stocks, now).value.value;
            Pow(lo, g.count) <= g.product <= Pow(hi, g.count)
  {
    ProductBetween(Prices(stocks, now), stocks.Keys, lo, hi);
  }

  /** A defined index is the geometric mean of positive prices: its product is positive. */
  lemma IndexPositive(stocks: Stocks, now: int)
    requires AllShareIndex(stocks, now).Success? && AllShareIndex(stocks, now).value.Some?
    ensures AllShareIndex(stocks, now).value.value.product > 0.0
  {
    var prices := Prices(stocks, now);
    forall k | k in prices ensures prices[k] > 0.0 {
      VwspBetweenPrices(stocks[k].trades, now);
    }
    ProductPositive(prices, stocks.Keys);
  }

  /** Recording a trade inside the window for the one stock that had no price makes the index
      defined. */
  lemma IndexBecomesDefined(stocks: Stocks, symbol: string, t: Trade, now: int)
    requires symbol in stocks && InWindow(t, now)
    requires forall k :: k in stocks && k != symbol ==> Vwsp(stocks[k].trades, now).Some?
    ensures var after := stocks[symbol := stocks[symbol].(trades := stocks[symbol].trades + [t])];
            AllShareIndex(after, now).Success? && AllShareIndex(after, now).value.Some?
  {
    var after := stocks[symbol := stocks[symbol].(trades := stocks[symbol].trades + [t])];
    assert t in after[symbol].trades;
    assert AllPriced(after, now);
  }
}
