/** The exchange-wide registry EXCHANGE_STOCKS and the Stock objects that write to it. */
module Registry {
  import opened Wrappers
  import opened Ledger

  /** One registry entry. The trade list is not copied into the entry: the entry refers to the
      Stock object whose list it shares, so later appends to that list show through the entry. */
  datatype Listing = Listing(kind: StockType, lastDividend: real, fixedDividend: Option<real>,
                             parValue: real, holder: Stock)

  /** The registry: a mutable map from symbol to entry. */
  class Exchange {
    var entries: map<string, Listing>

    /** Every entry's list belongs to a Stock object of that entry's symbol. */
    ghost predicate Valid()
      reads this
    {
      forall k :: k in entries ==> entries[k].holder.symbol == k
    }

    /** The Stock objects whose trade lists the registry shares. */
    ghost function Holders(): set<Stock>
      reads this
    {
      set k | k in entries :: entries[k].holder
    }

    constructor ()
      ensures Valid() && entries == map[]
    {
      entries := map[];
    }

    /** Stock.getAllStocks: the registry's current contents, each entry's list read through its
        holder. */
    function GetAllStocks(): (m: Stocks)
      reads this, Holders()
      ensures m.Keys == entries.Keys
      ensures forall k :: k in m ==> m[k].trades == entries[k].holder.trades
    {
      map k | k in entries :: StockData(entries[k].kind, entries[k].lastDividend,
                                        entries[k].fixedDividend, entries[k].parValue,
                                        entries[k].holder.trades)
    }

    /** Stock.getStock: the record of a registered symbol, or a KeyError. */
    function GetStock(symbol: string): (r: Result<StockData, Error>)
      reads this, Holders()
      ensures r.Success? <==> symbol in entries
      ensures r.Failure? ==> r.error == NotRegistered(symbol)
      ensures r.Success? ==> r.value == GetAllStocks()[symbol]
      ensures r.Success? ==> r.value.kind == entries[symbol].kind
                             && r.value.lastDividend == entries[symbol].lastDividend
                             && r.value.fixedDividend == entries[symbol].fixedDividend
                             && r.value.parValue == entries[symbol].parValue
                             && r.value.trades == entries[symbol].holder.trades
    {
      if symbol in entries then Success(GetAllStocks()[symbol]) else Failure(NotRegistered(symbol))
    }
  }

  /** A stock as the caller holds it: its symbol and its own trade list. */
  class Stock {
    const symbol: string
    var trades: seq<Trade>

    constructor (symbol: string)
      ensures this.symbol == symbol && trades == []
    {
      this.symbol := symbol;
      trades := [];
    }

    /** addStockDetails: creates or overwrites the entry for this symbol, sharing this stock's
        trade list, and leaves every other entry as it was. */
    method AddStockDetails(exchange: Exchange, kind: StockType, lastDividend: real, parValue: real,
                           fixedDividend: Option<real>)
      requires exchange.Valid()
      modifies exchange
      ensures exchange.Valid()
      ensures exchange.entries ==
                old(exchange.entries)[symbol := Listing(kind, lastDividend, StoredFixedDividend(fixedDividend),
                                                        parValue, this)]
      ensures exchange.GetAllStocks() ==
                old(exchange.GetAllStocks())[symbol := StockData(kind, lastDividend,
                                                                 StoredFixedDividend(fixedDividend),
                                                                 parValue, trades)]
    {
      exchange.entries := exchange.entries[symbol := Listing(kind, lastDividend,
                                                             StoredFixedDividend(fixedDividend),
                                                             parValue, this)];
    }

    /** recordTrade: a non-trade raises TypeError and a trade of another symbol raises ValueError,
        both leaving everything unchanged. Otherwise the trade is appended to this stock's list;
        if the symbol is registered its entry is then pointed at this list, and if it is not a
        KeyError is raised after the append. */
    method RecordTrade(exchange: Exchange, arg: Argument) returns (outcome: Outcome<Error>)
      requires exchange.Valid()
      modifies this, exchange
      ensures exchange.Valid()
      ensures arg.OtherValue? ==>
                outcome == Raised(NotATrade) && trades == old(trades) && exchange.entries == old(exchange.entries)
                && exchange.GetAllStocks() == old(exchange.GetAllStocks())
      ensures arg.TradeValue? && arg.trade.symbol != symbol ==>
                outcome == Raised(ForeignTrade(arg.trade.symbol)) && trades == old(trades)
                && exchange.entries == old(exchange.entries) && exchange.GetAllStocks() == old(exchange.GetAllStocks())
      ensures arg.TradeValue? && arg.trade.symbol == symbol ==> trades == old(trades) + [arg.trade]
      ensures arg.TradeValue? && arg.trade.symbol == symbol && symbol !in old(exchange.entries) ==>
                outcome == Raised(NotRegistered(symbol)) && exchange.entries == old(exchange.entries)
                && exchange.GetAllStocks() == old(exchange.GetAllStocks())
      ensures arg.TradeValue? && arg.trade.symbol == symbol && symbol in old(exchange.entries) ==>
                outcome == Done
                && exchange.entries == old(exchange.entries)[symbol := old(exchange.entries)[symbol].(holder := this)]
                && exchange.GetAllStocks() ==
                     old(exchange.GetAllStocks())[symbol := old(exchange.GetAllStocks())[symbol].(trades := trades)]
    {
      match arg
      case OtherValue =>
        outcome := Raised(NotATrade);
      case TradeValue(trade) =>
        if trade.symbol != symbol {
          outcome := Raised(ForeignTrade(trade.symbol));
        } else {
          trades := trades + [trade];
          if symbol in exchange.entries {
            exchange.entries := exchange.entries[symbol := exchange.entries[symbol].(holder := this)];
            outcome := Done;
          } else {
            outcome := Raised(NotRegistered(symbol));
          }
        }
    }
  }
}
