/** Values of the GBCE ledger: trades, stock types, the exceptions the ledger raises,
    and the per-symbol record the metrics engine reads. */
module Ledger {
  import opened Wrappers

  /** THRESHOLD_MINUTES = 5, as a number of seconds. Timestamps are whole seconds. */
  const WindowSeconds: int := 300

  /** A stock type label other than 'Common' and 'Preferred'. */
  type OtherLabel = s: string | s != "Common" && s != "Preferred" witness "Other"

  /** The stock type label. `Common` is the only encoding of the label 'Common' and `Preferred` of
      'Preferred'; `Unlisted(name)` stands for any other label. Any label other than Common is
      treated like a Preferred stock by the metrics. */
  datatype StockType = Common | Preferred | Unlisted(name: OtherLabel)

  datatype TradeType = Buy | Sell

  /** What a successfully constructed trade guarantees about its quantity and price. */
  type Quantity = q: int | q > 0 witness 1
  type Price = p: real | p > 0.0 witness 1.0

  /** An executed trade. Only `NewTrade` builds one from unchecked arguments. */
  datatype Trade = Trade(symbol: string, quantity: Quantity, side: TradeType, price: Price, timestamp: int)

  /** The exceptions raised by the ledger, one constructor per raise site. */
  datatype Error =
    | QuantityNotPositive(quantity: int)   // ValueError from Trade.__init__
    | PriceNotPositive(price: real)        // ValueError from Trade.__init__
    | NotATrade                            // TypeError from Stock.recordTrade
    | ForeignTrade(symbol: string)         // ValueError from Stock.recordTrade
    | NotRegistered(symbol: string)        // KeyError from Stock.recordTrade and Stock.getStock
    | UnknownSymbol(symbol: string)        // ValueError from the GBCETrading queries
    | NegativePrice(price: real)           // ValueError from the GBCETrading queries
    | MissingFixedDividend                 // TypeError: None * parValue in getDividendYield
    | NoStocks                             // ZeroDivisionError: 1/len(stocks) with no stocks

  /** The argument handed to `recordTrade`, which Python does not type: a trade or anything else. */
  datatype Argument = TradeValue(trade: Trade) | OtherValue

  /** One entry of the exchange as the metrics engine sees it: the record's fields and the
      current contents of its trade list. */
  datatype StockData = StockData(kind: StockType, lastDividend: real, fixedDividend: Option<real>,
                                 parValue: real, trades: seq<Trade>)

  /** A registry view: symbol to stock record. */
  type Stocks = map<string, StockData>

  /** Trade(symbol, quantity, tradeType, price, timestamp): the quantity is checked first,
      then the price; a constructed trade holds exactly its arguments. */
  function NewTrade(symbol: string, quantity: int, side: TradeType, price: real, timestamp: int)
    : (r: Result<Trade, Error>)
    ensures r.Success? <==> quantity > 0 && price > 0.0
    ensures quantity <= 0 ==> r == Failure(QuantityNotPositive(quantity))
    ensures quantity > 0 && price <= 0.0 ==> r == Failure(PriceNotPositive(price))
    ensures r.Success? ==> r.value.symbol == symbol && r.value.quantity == quantity && r.value.side == side
                           && r.value.price == price && r.value.timestamp == timestamp
  {
    if quantity > 0 then
      if price > 0.0 then Success(Trade(symbol, quantity, side, price, timestamp))
      else Failure(PriceNotPositive(price))
    else Failure(QuantityNotPositive(quantity))
  }

  /** Trade(...) called without a timestamp, as written: the default `datetime.datetime.now()` is
      evaluated once, when the module is loaded, so every such trade carries the load time
      `loadTime`, however much later it is built. */
  function NewTradeWithDefaultTimestamp(symbol: string, quantity: int, side: TradeType, price: real, loadTime: int)
    : (r: Result<Trade, Error>)
    ensures r.Success? <==> quantity > 0 && price > 0.0
    ensures r.Success? ==> r.value.timestamp == loadTime
  {
    NewTrade(symbol, quantity, side, price, loadTime)
  }

  /** Trade.totalPrice: the value of the trade, quantity times unit price. */
  function TotalPrice(t: Trade): (r: real)
    ensures r >= t.price
  {
    var q := t.quantity as real;
    assert q * t.price >= 1.0 * t.price by {
      assert q >= 1.0;
    }
    q * t.price
  }

  /** Dividing the total price by the quantity gives the unit price back. */
  lemma TotalPriceRecoversPrice(t: Trade)
    ensures TotalPrice(t) / t.quantity as real == t.price
  {
  }

  /** The fixed dividend as stored by addStockDetails: divided by 100 when truthy, otherwise kept
      as given. For every given percentage the stored value is that percentage over 100 (for 0 both
      branches agree), and a missing percentage stays missing. */
  function StoredFixedDividend(percent: Option<real>): (r: Option<real>)
    ensures r.Some? <==> percent.Some?
    ensures r.Some? ==> r.value * 100.0 == percent.value
  {
    match percent
    case None => None
    case Some(p) => if p != 0.0 then Some(p / 100.0) else percent
  }
}
