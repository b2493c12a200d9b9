/** The cases of the ledger's unit tests, stated on the model. Times are in seconds; `Now` stands
    for the moment the tests run, and trades the tests build without a timestamp are stamped at
    `Now`. That is the intended behaviour: as written, such a trade carries the time the module was
    loaded, and the tests pass only because loading and running happen within the 300-second
    window of each other. */
module Scenarios {
  import opened Wrappers
  import opened Ledger
  import opened Metrics
  import opened Registry

  const Now: int := 1_000_000

  /** A record with no trades, as the tests write it out by hand. */
  function Record(kind: StockType, lastDividend: real, fixedDividend: Option<real>, parValue: real): StockData {
    StockData(kind, lastDividend, fixedDividend, parValue, [])
  }

  /** Dividend yield of a Common stock (8 at 160 is 0.05), its undefined and failing cases, and the
      yield of a Preferred stock whose fixed dividend is given unconverted, as 4. */
  lemma DividendYieldCases()
    ensures var pop := map["POP" := Record(Common, 8.0, None, 100.0)];
            && DividendYield(pop, "POP", 160.0) == Success(Some(0.05))
            && DividendYield(pop, "POP", 0.0) == Success(None)
            && DividendYield(pop, "POP", -10.7) == Failure(NegativePrice(-10.7))
            && DividendYield(pop, "ABC", 24.7) == Failure(UnknownSymbol("ABC"))
            && DividendYield(pop, "ABC", -1.0) == Failure(UnknownSymbol("ABC"))
    ensures var joe := map["JOE" := Record(Preferred, 18.0, Some(4.0), 200.0)];
            var y := DividendYield(joe, "JOE", 254.5);
            y.Success? && y.value.Some? && 3.138 < y.value.value < 3.148
  {
  }

  /** P/E ratio of a Common stock (88 squared over 23), its undefined and failing cases, and the
      Preferred case 350 / (14 * 250 / 350) = 35. */
  lemma PERatioCases()
    ensures var ale := map["ALE" := Record(Common, 23.0, None, 60.0)];
            var pe := PERatio(ale, "ALE", 88.0);
            && pe.Success? && pe.value.Some? && 336.690 < pe.value.value < 336.700
            && PERatio(ale, "ALE", 0.0) == Success(None)
            && PERatio(ale, "POP", -75.7) == Failure(UnknownSymbol("POP"))
            && PERatio(ale, "XYZ", 190.2) == Failure(UnknownSymbol("XYZ"))
    ensures var gin := map["GIN" := Record(Preferred, 24.0, Some(14.0), 250.0)];
            PERatio(gin, "GIN", 350.0) == Success(Some(35.0))
  {
    var ale := map["ALE" := Record(Common, 23.0, None, 60.0)];
    PERatioOfCommon(ale, "ALE", 88.0);
  }

  const Tea1 := Trade("TEA", 100, Buy, 120.5, Now)
  const Tea2 := Trade("TEA", 50, Sell, 125.4, Now)
  const Tea3 := Trade("TEA", 200, Buy, 110.5, Now - 7 * 60)
  const Gin1 := Trade("GIN", 150, Buy, 225.4, Now)

  /** The two recent TEA trades: both in the window, 150 shares worth 18320. */
  lemma TeaFigures()
    ensures Recent([Tea1, Tea2], Now) == [Tea1, Tea2]
    ensures TotalValue([Tea1, Tea2]) == 18320.0 && TotalQuantity([Tea1, Tea2]) == 150
    ensures Vwsp([Tea1, Tea2], Now) == Some(18320.0 / 150.0)
  {
    assert [Tea1, Tea2][1..] == [Tea2] && [Tea2][1..] == [];
    assert Recent([Tea2], Now) == [Tea2];
    assert TotalPrice(Tea1) == 12050.0 && TotalPrice(Tea2) == 6270.0;
    assert Tea2.quantity == 50;
    assert TotalQuantity([Tea2][1..]) == 0;
    assert TotalQuantity([Tea2]) == [Tea2][0].quantity + TotalQuantity([Tea2][1..]);
    assert TotalValue([Tea2]) == 6270.0 && TotalQuantity([Tea2]) == 50;
  }

  /** The trade seven minutes old falls outside the window, so TEA's price is
      (100 * 120.5 + 50 * 125.4) / 150, about 122.133. */
  lemma VolumeWeightedCases()
    ensures var stocks := map["GIN" := Record(Common, 20.0, None, 200.0),
                              "TEA" := Record(Common, 0.0, None, 100.0).(trades := [Tea1, Tea2, Tea3])];
            && VolumeWeightedStockPrice(stocks, "TEA", Now) == Success(Some(18320.0 / 150.0))
            && VolumeWeightedStockPrice(stocks, "GIN", Now) == Success(None)
            && VolumeWeightedStockPrice(stocks, "PQR", Now) == Failure(UnknownSymbol("PQR"))
  {
    TeaFigures();
    assert [Tea1, Tea2, Tea3][1..] == [Tea2, Tea3] && [Tea2, Tea3][1..] == [Tea3] && [Tea3][1..] == [];
    assert Recent([Tea3], Now) == [];
    assert Recent([Tea1, Tea2, Tea3], Now) == [Tea1, Tea2];
  }

  const GinRecord := Record(Common, 20.0, None, 200.0)
  const TeaRecord := Record(Common, 0.0, None, 100.0)

  /** GIN's one trade of 150 at 225.4 prices it at 225.4. */
  lemma GinFigures()
    ensures Recent([Gin1], Now) == [Gin1]
    ensures TotalValue([Gin1]) == 33810.0 && TotalQuantity([Gin1]) == 150
    ensures Vwsp([Gin1], Now) == Some(33810.0 / 150.0)
  {
    assert [Gin1][1..] == [];
    assert TotalQuantity([Gin1]) == [Gin1][0].quantity + TotalQuantity([Gin1][1..]);
  }

  /** The product over two stocks is the product of their two prices. */
  lemma ProductOfTwo(prices: map<string, real>)
    requires prices.Keys == {"GIN", "TEA"}
    ensures Product(prices, {"GIN", "TEA"}) == Times(prices["GIN"], prices["TEA"])
  {
    ProductSplit(prices, {"GIN", "TEA"}, "GIN");
    assert {"GIN", "TEA"} - {"GIN"} == {"TEA"};
    ProductSplit(prices, {"TEA"}, "TEA");
    assert {"TEA"} - {"TEA"} == {};
  }

  lemma TwoSymbols()
    ensures "GIN" != "TEA" && |{"GIN", "TEA"}| == 2
  {
    assert "GIN"[0] != "TEA"[0];
    assert "GIN" != "TEA";
  }

  /** Once GIN has traded, both stocks are priced: GIN at 225.4 and TEA at 18320 / 150. */
  lemma PricesAfterGinTrades(after: Stocks)
    requires after.Keys == {"GIN", "TEA"} && after["GIN"].trades == [Gin1] && after["TEA"].trades == [Tea1, Tea2]
    ensures AllPriced(after, Now)
    ensures Prices(after, Now)["GIN"] == 33810.0 / 150.0 && Prices(after, Now)["TEA"] == 18320.0 / 150.0
  {
    TeaFigures();
    GinFigures();
    assert forall k :: k in after ==> k == "GIN" || k == "TEA";
  }

  /** The index over GIN and TEA once both have traded is the square root of 225.4 * 122.133...,
      within 0.005 of 165.918. */
  lemma IndexAfterGinTrades(after: Stocks)
    requires after.Keys == {"GIN", "TEA"} && after["GIN"].trades == [Gin1] && after["TEA"].trades == [Tea1, Tea2]
    ensures var r := AllShareIndex(after, Now);
            && r.Success? && r.value.Some? && r.value.value.count == 2
            && Pow(165.913, 2) < r.value.value.product < Pow(165.923, 2)
  {
    PricesAfterGinTrades(after);
    TwoSymbols();
    assert |after| == |after.Keys|;
    ProductOfTwo(Prices(after, Now));
  }

  /** With TEA priced and GIN without trades the index is undefined; once GIN trades at 225.4 the
      index is defined and lies within 0.005 of 165.918. */
  lemma AllShareIndexCases()
    ensures AllShareIndex(map["GIN" := GinRecord, "TEA" := TeaRecord.(trades := [Tea1, Tea2])], Now)
            == Success(None)
    ensures var after := map["GIN" := GinRecord.(trades := [Gin1]), "TEA" := TeaRecord.(trades := [Tea1, Tea2])];
            var r := AllShareIndex(after, Now);
            && r.Success? && r.value.Some? && r.value.value.count == 2
            && Pow(165.913, 2) < r.value.value.product < Pow(165.923, 2)
  {
    IndexOnceGinTrades(map["GIN" := GinRecord, "TEA" := TeaRecord.(trades := [Tea1, Tea2])]);
    IndexAfterGinTrades(map["GIN" := GinRecord.(trades := [Gin1]), "TEA" := TeaRecord.(trades := [Tea1, Tea2])]);
  }

  /** A registry view holding GIN without trades and TEA with its two recent trades has no index;
      one recent GIN trade makes it defined. */
  lemma IndexOnceGinTrades(view: Stocks)
    requires view.Keys == {"GIN", "TEA"} && view["GIN"].trades == [] && view["TEA"].trades == [Tea1, Tea2]
    ensures AllShareIndex(view, Now) == Success(None)
    ensures var after := view["GIN" := view["GIN"].(trades := view["GIN"].trades + [Gin1])];
            AllShareIndex(after, Now).Success? && AllShareIndex(after, Now).value.Some?
  {
    assert Vwsp(view["GIN"].trades, Now).None?;
    TeaFigures();
    assert Vwsp(view["TEA"].trades, Now).Some?;
    IndexBecomesDefined(view, "GIN", Gin1, Now);
  }

  /** Registers GIN and TEA, as the tests' set-up does, through two fresh Stock objects. */
  method NewExchangeWithGinAndTea() returns (exchange: Exchange, gin: Stock, tea: Stock)
    ensures fresh(exchange) && fresh(gin) && fresh(tea)
    ensures exchange.Valid() && gin.symbol == "GIN" && tea.symbol == "TEA" && gin != tea
    ensures gin.trades == [] && tea.trades == []
    ensures exchange.GetAllStocks() == map["GIN" := GinRecord, "TEA" := TeaRecord]
  {
    exchange := new Exchange();
    gin := new Stock("GIN");
    gin.AddStockDetails(exchange, Common, 20.0, 200.0, None);
    tea := new Stock("TEA");
    tea.AddStockDetails(exchange, Common, 0.0, 100.0, None);
  }

  /** Records two TEA trades through the TEA object; a GIN trade offered to it is refused. */
  method NewExchangeWithTeaTrades() returns (exchange: Exchange, gin: Stock, tea: Stock)
    ensures fresh(exchange) && fresh(gin) && fresh(tea)
    ensures exchange.Valid() && gin.symbol == "GIN" && tea.symbol == "TEA" && gin != tea
    ensures gin.trades == [] && tea.trades == [Tea1, Tea2]
    ensures var view := exchange.GetAllStocks();
            view.Keys == {"GIN", "TEA"} && view["GIN"] == GinRecord && view["TEA"] == TeaRecord.(trades := [Tea1, Tea2])
  {
    exchange, gin, tea := NewExchangeWithGinAndTea();
    TwoSymbols();
    var o1 := tea.RecordTrade(exchange, TradeValue(Tea1));
    var o2 := tea.RecordTrade(exchange, TradeValue(Tea2));
    assert tea.trades == [Tea1, Tea2];
    assert o1 == Done && o2 == Done;
  }

  /** The registry side of the same test: the engine over the registry sees the trades as they
      are recorded, so the index becomes defined once GIN trades. */
  method RecordingScenario() {
    var exchange, gin, tea := NewExchangeWithTeaTrades();
    var view := EngineStocks(None, exchange.GetAllStocks());
    IndexOnceGinTrades(view);
    assert AllShareIndex(view, Now) == Success(None);
    var o4 := gin.RecordTrade(exchange, TradeValue(Gin1));
    assert o4 == Done;
    var view' := EngineStocks(None, exchange.GetAllStocks());
    assert view' == view["GIN" := view["GIN"].(trades := view["GIN"].trades + [Gin1])];
    assert AllShareIndex(view', Now).value.Some?;
  }

  /** Registering a new Stock object under a symbol replaces the entry's list by the new object's
      empty list; registering the same object again keeps its trades. */
  method ReRegisterScenario() {
    var exchange := new Exchange();
    var gin := new Stock("GIN");
    gin.AddStockDetails(exchange, Common, 20.0, 200.0, None);
    var o1 := gin.RecordTrade(exchange, TradeValue(Gin1));
    assert o1 == Done && exchange.GetAllStocks()["GIN"].trades == [Gin1];
    gin.AddStockDetails(exchange, Preferred, 8.0, 100.0, Some(2.0));
    assert exchange.GetAllStocks()["GIN"].trades == [Gin1];
    assert exchange.GetAllStocks()["GIN"].fixedDividend == Some(0.02);
    var gin2 := new Stock("GIN");
    gin2.AddStockDetails(exchange, Common, 20.0, 200.0, None);
    assert exchange.GetAllStocks()["GIN"].trades == [];
  }

  /** A trade recorded for a symbol nobody registered is still appended to the stock's own list
      before the KeyError; a value that is not a trade, or a trade in another stock, is refused
      and leaves the list as it was. */
  method UnregisteredScenario() {
    var exchange := new Exchange();
    var ale := new Stock("ALE");
    var t := Trade("ALE", 50, Buy, 348.0, Now);
    var o := ale.RecordTrade(exchange, TradeValue(t));
    assert o == Raised(NotRegistered("ALE")) && ale.trades == [t] && exchange.entries == map[];
    var o' := ale.RecordTrade(exchange, OtherValue);
    assert o' == Raised(NotATrade) && ale.trades == [t];
    var o'' := ale.RecordTrade(exchange, TradeValue(Tea1));
    assert o'' == Raised(ForeignTrade("TEA")) && ale.trades == [t];
  }
}
