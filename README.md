# GBCE stock-exchange ledger, modelled in Dafny

This project models the GBCE stock-exchange ledger in `gbce_trading.py`.
The ledger has three parts:

- a process-wide registry `EXCHANGE_STOCKS` from symbol to stock record;
- the `Stock` objects that write to the registry, and the `Trade` values they record;
- the `GBCETrading` engine. It computes the dividend yield, the P/E ratio, the volume-weighted
  stock price over the last five minutes, and the GBCE all-share index.

Files:

- `wrappers.dfy`: `Option`, `Result` and `Outcome`. `Success(None)` is Python's `None` ("undefined"), which is distinct from `Failure(e)`, a raised exception.
- `ledger.dfy`: the values.
  - `Trade`, with its validating constructor `NewTrade` and `TotalPrice`.
  - The stock and trade types. Any stock type other than `Common` is an `Unlisted(name)` or `Preferred` value, and the metrics treat it as preferred. An `Unlisted` name is never 'Common' or 'Preferred'.
  - One `Error` constructor per kind of exception and cause. `UnknownSymbol` is raised by all three symbol-taking queries, `NegativePrice` by both price-taking queries, and `NotRegistered` by `recordTrade` and `getStock`.
  - `StockData`, the record the engine reads.
  - `StoredFixedDividend`, the conversion done at registration.
- `registry.dfy`: the mutable state.
  - `Exchange` is the registry, a class whose `entries` map the methods reassign.
  - `Stock` is a class with its own `trades` list.
  - A registry entry holds a reference to the `Stock` whose list it shares, so appends made through the stock show through the registry, as with Python's shared list.
  - `GetAllStocks` reads the lists through those references.
- `metrics.dfy`: the engine's queries, written as functions of a registry view, the query arguments and the current time `now`. Being functions, they are read-only and give the same result for the same state, price and time.
- `scenarios.dfy`: the cases of `gbce_trading_unittests.py`, stated on the model.
  - The dividend, P/E and volume-weighted cases, and the index before and after GIN's first trade.
  - Methods that drive `Exchange` and `Stock`:
    - re-registering under a new object empties the entry's list;
    - re-registering the same object keeps its trades;
    - a trade for an unregistered stock is appended and then a `KeyError` is raised;
    - a non-trade or a foreign trade leaves the list as it was.

Where the code behaves differently from what its names or documentation suggest, the model follows the code:

- `recordTrade` checks that the trade "belongs to this Stock" (gbce_trading.py:43-44) with `is not`, which is identity and not equality. It is modelled as equality, which is what the message means.
- The timestamp is documented as the "Time at which trade took place" (gbce_trading.py:72), but its default is the moment the module was loaded (gbce_trading.py:66). See Findings.
- The dividend-yield and P/E queries return `None` for an undefined result and log it (gbce_trading.py:116-117, 138-141). Yet a non-Common stock without a fixed dividend makes `getDividendYield` raise `TypeError`, even at price 0 (gbce_trading.py:120). `getPERatio` catches that `TypeError` and returns `None` (gbce_trading.py:140-141).
- `GBCETrading(stocks)` is documented as taking "All stock details of exchange" (gbce_trading.py:97), but an empty mapping falls back to the registry just like a missing one (gbce_trading.py:99).
- The index returns `None` when it cannot be computed (gbce_trading.py:165-167), but an empty registry makes it raise `ZeroDivisionError` (gbce_trading.py:169).
- The message says "Price must be a positive number" (gbce_trading.py:110), but only a negative price is rejected (gbce_trading.py:109). Price 0 is allowed and makes the yield undefined.

## Model

| member | source | states |
|---|---|---|
| Ledger.NewTrade | gbce_trading.py:66-84 | Construction succeeds iff quantity > 0 and price > 0. The quantity is checked first, so a bad quantity gives its error whatever the price. A built trade holds exactly its arguments. |
| Ledger.NewTradeWithDefaultTimestamp | gbce_trading.py:66 | Without a timestamp, construction succeeds under the same conditions, but the trade carries the module's load time, not the time it is built. |
| Ledger.TotalPrice | gbce_trading.py:86-91 | The total price of a trade is never below its unit price, so it is positive. |
| Ledger.TotalPriceRecoversPrice | gbce_trading.py:86-91 | The total price divided by the quantity gives the unit price back. |
| Ledger.StoredFixedDividend | gbce_trading.py:30 | A given percentage is stored as that percentage over 100, and for 0 both branches of `if fd` agree. A missing percentage stays missing. |
| Registry.Exchange.constructor | gbce_trading.py:8 | The registry starts empty. |
| Registry.Exchange.GetAllStocks | gbce_trading.py:49-54 | Has the registered symbols exactly. Each record's trades are the current list of the Stock object the entry shares. |
| Registry.Exchange.GetStock | gbce_trading.py:56-62 | Succeeds iff the symbol is registered, and then returns exactly that symbol's record of the registry view: its type, dividends and par value as stored, and its live trade list. Otherwise it raises KeyError. |
| Registry.Stock.constructor | gbce_trading.py:11-17 | A stock keeps its symbol and starts with an empty trade list. |
| Registry.Stock.AddStockDetails | gbce_trading.py:19-34 | Creates or overwrites only this symbol's entry, and every other entry is untouched. The fixed dividend is stored converted. The entry's trades are this object's own list, so re-registering the same object keeps its trades. |
| Registry.Stock.RecordTrade | gbce_trading.py:36-47 | A non-trade raises TypeError and a trade of another symbol raises ValueError; both change nothing. Otherwise the list becomes old + [trade]. If the symbol is registered, the entry then shows exactly that list and no other entry changes. If it is not registered, KeyError is raised after the append. |
| Metrics.EngineStocks | gbce_trading.py:95-99 | A non-empty mapping is used as given. A missing or empty one falls back to the registry. |
| Metrics.DividendYield | gbce_trading.py:101-123 | The unknown symbol is checked before the negative price. It fails exactly for those two and for a non-Common stock with no fixed dividend. Undefined iff the price is 0. Otherwise yield × price is lastDividend for Common and fixedDividend × parValue for every other type. |
| Metrics.PERatio | gbce_trading.py:125-142 | Fails exactly for an unknown symbol or a negative price, checked in that order. It is defined iff the yield is defined and non-zero, and then P/E × yield = price. |
| Metrics.PERatioOfCommon | gbce_trading.py:135-142 | For a Common stock with a non-zero dividend at a positive price, P/E = price² / lastDividend. |
| Metrics.PERatioOfMissingFixedDividend | gbce_trading.py:118-141 | With no fixed dividend, a non-Common stock's yield raises TypeError, while its P/E ratio is undefined and does not raise. |
| Metrics.Recent | gbce_trading.py:152-154 | Keeps exactly the trades whose timestamp is at least now − 300, and never more trades than given. |
| Metrics.RecentKeepsEveryCopy | gbce_trading.py:154 | The filter keeps every copy of a trade in the window, as often as it was recorded, and no copy of any other trade. |
| Metrics.TotalQuantity | gbce_trading.py:157-158 | The summed quantity is at least the number of trades, so the quotient's divisor is positive. |
| Metrics.TotalValue | gbce_trading.py:156-158 | The summed total prices are never negative, and are positive as soon as there is a trade. ValueBetweenPrices brackets them. |
| Metrics.ValueBetweenPrices | gbce_trading.py:156-158 | The summed value lies between the summed quantity priced at any lower bound of the prices and at any upper bound. |
| Metrics.Vwsp | gbce_trading.py:151-159 | Undefined iff no trade lies in the window. |
| Metrics.VwspBetweenPrices | gbce_trading.py:155-158 | A defined volume-weighted price is positive and lies between the lowest and the highest price of the trades in the window. |
| Metrics.VolumeWeightedStockPrice | gbce_trading.py:144-159 | Raises iff the symbol is unknown, and then with the unknown-symbol error. Otherwise it is that stock's volume-weighted price over the window, so VwspBetweenPrices applies to it, and it is undefined iff none of the stock's trades is in the window. |
| Metrics.DefaultTimestampIsStale | gbce_trading.py:66 | A trade built with the default timestamp more than 300 seconds after load is outside the window at once. Alone, it leaves its stock without a price. |
| Metrics.FreshTradeSetsPrice | gbce_trading.py:152-158 | A trade stamped when it is built is in the window. Alone, it prices its stock at its own unit price. |
| Metrics.AllShareIndex | gbce_trading.py:161-170 | Raises ZeroDivisionError iff there are no stocks. Undefined iff some stock's volume-weighted price is undefined. A defined index is the geometric mean over all the stocks. |
| Metrics.Product | gbce_trading.py:168 | The product of no prices is reduce's initial value 1, and the product of one price is that price. ProductSplit, ProductBetween and ProductPositive give the general case. |
| Metrics.ProductPositive | gbce_trading.py:168 | A product of positive prices is positive. |
| Metrics.ProductSplit | gbce_trading.py:168 | The product of the prices does not depend on the order of the stocks: any stock's price can be taken out first. |
| Metrics.ProductBetween | gbce_trading.py:168-169 | If every price lies in [lo, hi] with lo ≥ 0, the product lies in [loⁿ, hiⁿ]. |
| Metrics.IndexBetween | gbce_trading.py:165-170 | The index lies between any lower and upper bound of the stocks' volume-weighted prices: loⁿ ≤ product ≤ hiⁿ, n being the number of stocks. |
| Metrics.IndexPositive | gbce_trading.py:165-170 | A defined index has a positive product. |
| Metrics.IndexBecomesDefined | gbce_trading.py:166-169 | Recording a trade inside the window for the only unpriced stock turns an undefined index into a defined one. |
| Scenarios.DividendYieldCases | gbce_trading_unittests.py:7-16 | POP yields 0.05 at 160 and is undefined at 0. A negative price and an unknown symbol raise. Preferred JOE, given the raw fixed dividend 4, yields about 3.143 at 254.5. |
| Scenarios.PERatioCases | gbce_trading_unittests.py:18-27 | ALE's P/E at 88 is 88²/23, about 336.695, and undefined at 0. An unknown symbol raises before the negative price is looked at. GIN's is exactly 35. |
| Scenarios.VolumeWeightedCases | gbce_trading_unittests.py:29-43 | The trade seven minutes old is left out, and TEA's price is 18320/150, about 122.133. GIN, with no trades, is undefined. PQR raises. |
| Scenarios.AllShareIndexCases | gbce_trading_unittests.py:45-58 | The index is undefined while GIN has no trade. After GIN's trade it has two stocks, and its square lies strictly between 165.913² and 165.923². |
| Scenarios.IndexOnceGinTrades | gbce_trading_unittests.py:54-57 | With GIN unpriced and TEA priced the index is undefined. Appending GIN's trade makes it defined. |
| Scenarios.NewExchangeWithTeaTrades | gbce_trading_unittests.py:46-53 | After registration and two recorded TEA trades, the registry shows GIN with no trades and TEA with exactly those two. |

## Left out

- Logging (`logging.info`) and the `__main__` demonstration block are left out. They have no effect on results.
- Wall-clock reads are left out. The current time `now` is a parameter of the volume-weighted price and the index, and a trade's timestamp is an explicit argument. Timestamps are whole seconds and the window is 300 seconds.
- Floating point is replaced by exact reals. The unit tests' `assertAlmostEqual` tolerances become explicit bounds.
- Metrics.AllShareIndex: the final `product ** (1/len(stocks))` is not computed, because reals have no n-th root here. A defined index is returned as its product and its count, `GeometricMean(product, count)`, and IndexBetween bounds the product by powers.
- Metrics.AllShareIndex: it is a ghost function, because the product is taken over the set of symbols by choosing one at a time. ProductSplit shows that the order does not matter.
- The `isinstance(price, Number)` check is left out. The price is a typed real, so only `price < 0` remains.
- Registry.Stock.RecordTrade: the `is not` identity test on symbols is modelled as string equality. Two equal symbol strings that are distinct objects would make Python raise ValueError.
- Metrics.EngineStocks: Python chooses between the given mapping and the registry once, when the engine is built. The model chooses when the view is passed. The two differ if the given mapping changes between empty and non-empty after the engine is built. A mapping given empty and filled later is still ignored by Python. A mapping given non-empty and emptied later is still used by Python, while the model would fall back to the registry.
- Ledger.NewTrade: Python accepts any positive number as a quantity, such as 0.5. The model takes whole quantities (`Quantity` is a positive `int`), and TotalQuantity's bound of at least one share per trade relies on that.
- Metrics.AllShareIndex: Python calls `getVolumeWeightedStockPrice` once per symbol (gbce_trading.py:166), and each call reads the clock again (gbce_trading.py:152). The model evaluates every stock at the same `now`, so a trade that leaves the window between two of those calls is not modelled.
- Ledger.StoredFixedDividend: a fixed dividend of 0 is stored unconverted, as in Python. With exact reals, 0 and 0/100 are equal, so this branch cannot be observed.
- The configuration constants in `gbce_trading_config.py` are not modelled as such. The record keys become datatype fields, `StockType` and `TradeType` become datatypes, and the window is 300 seconds.
- The unit tests hand the engine records with an unconverted fixed dividend. The scenarios do the same, through `Record`.

## Findings

| source | as written | input that shows it | evidently intended | confidence | as-written member | corrected member |
|---|---|---|---|---|---|---|
| gbce_trading.py:66 | The default `timestamp=datetime.datetime.now()` is evaluated once, when the module is loaded, so every trade built without a timestamp carries the load time | Load at time L, then build a trade without a timestamp at any time now > L + 300: its volume-weighted contribution is already outside the window, and a stock with only that trade has no price | A trade built without a timestamp is stamped when it is built, as the parameter's documentation says ("Time at which trade took place") | high, not executed | Metrics.DefaultTimestampIsStale | Metrics.FreshTradeSetsPrice |
