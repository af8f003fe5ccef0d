/** The engine as its source writes it: a class whose methods update the two books and the trade log in
    place, and an order object whose price and volume the handlers update in place. */
module Engine {
  import opened Books
  import opened Matching

  /** The caller's order list [type, side, price, volume, id]; the handlers write its price and volume. */
  class Order {
    const kind: int
    const side: int
    var price: int
    var volume: nat
    const id: int

    constructor (kind: int, side: int, price: int, volume: nat, id: int)
      ensures Record() == OrderRecord(kind, side, price, volume, id)
    {
      this.kind, this.side, this.price, this.volume, this.id := kind, side, price, volume, id;
    }

    /** The order's current fields as a value. */
    function Record(): OrderRecord
      reads this
    {
      OrderRecord(kind, side, price, volume, id)
    }
  }

  /** The scan-forward search of execute_buy and execute_sell: the index of the first entry that is not
      MARKET. */
  method ScanToPriced(book: seq<Entry>) returns (cnt: nat)
    requires HasPriced(book)
    ensures cnt == PricedIndex(book)
  {
    cnt := 0;
    while book[cnt].kind == Market
      invariant cnt <= PricedIndex(book)
      decreases PricedIndex(book) - cnt
    {
      cnt := cnt + 1;
    }
  }

  class MatchingEngine {
    var bidBook: seq<Entry>
    var askBook: seq<Entry>
    var filledOrders: seq<Trade>

    /** The three lists as a value. */
    function State(): EngineState
      reads this
    {
      EngineState(bidBook, askBook, filledOrders)
    }

    /** Both books are in priority order. */
    ghost predicate Valid()
      reads this
    {
      Matching.Valid(State())
    }

    constructor ()
      ensures Valid() && State() == EngineState([], [], [])
    {
      bidBook, askBook, filledOrders := [], [], [];
    }

    /** handle_order: route by type; an order of undefined type changes nothing. */
    method HandleOrder(order: Order)
      requires Valid() && Ready(State(), order.Record())
      modifies this, order`price, order`volume
      ensures Valid()
      ensures var out := Dispatch(old(State()), old(order.Record()));
        State() == out.state && order.Record() == out.order
    {
      if order.kind == LIMIT {
        HandleLimitOrder(order);
      } else if order.kind == MARKET {
        HandleMarketOrder(order);
      }
    }

    /** execute_buy: one match of a buy order against the head of the ask book. */
    method ExecuteBuy(order: Order) returns (more: bool)
      requires Valid() && HasPriced(askBook)
      modifies this, order`volume
      ensures Valid() && (askBook == [] || HasPriced(askBook))
      ensures var step := Execute(Buy, old(order.Record()), old(askBook));
        && askBook == step.book && filledOrders == old(filledOrders) + [step.trade]
        && order.volume == step.volume && more == step.more
      ensures bidBook == old(bidBook)
    {
      ExecuteKeepsBook(Buy, order.Record(), askBook);
      ghost var step := Execute(Buy, order.Record(), askBook);
      var cnt := ScanToPriced(askBook);
      var price := 0;
      if order.kind == LIMIT {
        price := Min(order.price, askBook[cnt].price);
      } else if order.kind == MARKET {
        price := askBook[cnt].price;
      }
      assert price == step.trade.price;
      var head := askBook[0];
      if order.volume < head.volume {
        filledOrders := filledOrders + [Trade(price, order.volume, order.id, Fill, head.id, Part)];
        askBook := [head.(volume := head.volume - order.volume)] + askBook[1..];
        order.volume := 0;
        more := false;
      } else if order.volume == head.volume {
        filledOrders := filledOrders + [Trade(price, order.volume, order.id, Fill, head.id, Fill)];
        askBook := askBook[1..];
        order.volume := 0;
        more := false;
      } else {
        filledOrders := filledOrders + [Trade(price, head.volume, order.id, Part, head.id, Fill)];
        order.volume := order.volume - head.volume;
        askBook := askBook[1..];
        more := true;
      }
    }

    /** execute_sell: one match of a sell order against the head of the bid book. */
    method ExecuteSell(order: Order) returns (more: bool)
      requires Valid() && HasPriced(bidBook)
      modifies this, order`volume
      ensures Valid() && (bidBook == [] || HasPriced(bidBook))
      ensures var step := Execute(Sell, old(order.Record()), old(bidBook));
        && bidBook == step.book && filledOrders == old(filledOrders) + [step.trade]
        && order.volume == step.volume && more == step.more
      ensures askBook == old(askBook)
    {
      ExecuteKeepsBook(Sell, order.Record(), bidBook);
      ghost var step := Execute(Sell, order.Record(), bidBook);
      var cnt := ScanToPriced(bidBook);
      var price := bidBook[cnt].price;
      assert price == step.trade.price;
      var head := bidBook[0];
      if order.volume < head.volume {
        filledOrders := filledOrders + [Trade(price, order.volume, order.id, Fill, head.id, Part)];
        bidBook := [head.(volume := head.volume - order.volume)] + bidBook[1..];
        order.volume := 0;
        more := false;
      } else if order.volume == head.volume {
        filledOrders := filledOrders + [Trade(price, order.volume, order.id, Fill, head.id, Fill)];
        bidBook := bidBook[1..];
        order.volume := 0;
        more := false;
      } else {
        filledOrders := filledOrders + [Trade(price, head.volume, order.id, Part, head.id, Fill)];
        order.volume := order.volume - head.volume;
        bidBook := bidBook[1..];
        more := true;
      }
    }

    /** The matching loop of a limit buy order (MatchingEngine.py:147-150): execute while the order crosses the head
        of the ask book and the step says to continue, stopping as well once that book is empty. */
    method MatchAsks(order: Order)
      requires Valid() && LimitScanSafe(Buy, order.price, askBook)
      modifies this, order`volume
      ensures Valid() && bidBook == old(bidBook)
      ensures var r := LimitLoop(Buy, old(order.Record()), old(askBook), old(filledOrders));
        askBook == r.book && filledOrders == r.log && order.volume == r.volume
    {
      ghost var goal := LimitLoop(Buy, order.Record(), askBook, filledOrders);
      while askBook != [] && order.price >= askBook[0].price
        invariant Valid() && LimitScanSafe(Buy, order.price, askBook) && bidBook == old(bidBook)
        invariant LimitLoop(Buy, order.Record(), askBook, filledOrders) == goal
        decreases |askBook|
      {
        var more := ExecuteBuy(order);
        if !more {
          assert Progress(order.volume, askBook, filledOrders) == goal;
          break;
        }
      }
    }

    /** The matching loop of a limit sell order (MatchingEngine.py:160-163): execute while the order crosses the head
        of the bid book and the step says to continue, stopping as well once that book is empty. */
    method MatchBids(order: Order)
      requires Valid() && LimitScanSafe(Sell, order.price, bidBook)
      modifies this, order`volume
      ensures Valid() && askBook == old(askBook)
      ensures var r := LimitLoop(Sell, old(order.Record()), old(bidBook), old(filledOrders));
        bidBook == r.book && filledOrders == r.log && order.volume == r.volume
    {
      ghost var goal := LimitLoop(Sell, order.Record(), bidBook, filledOrders);
      while bidBook != [] && order.price <= bidBook[0].price
        invariant Valid() && LimitScanSafe(Sell, order.price, bidBook) && askBook == old(askBook)
        invariant LimitLoop(Sell, order.Record(), bidBook, filledOrders) == goal
        decreases |bidBook|
      {
        var more := ExecuteSell(order);
        if !more {
          assert Progress(order.volume, bidBook, filledOrders) == goal;
          break;
        }
      }
    }

    /** The loop of a market buy order (MatchingEngine.py:177-186): while the order has volume, rest it on the
        bid book if the opposite book is empty, otherwise execute and stop unless the step says to continue. */
    method SweepAsks(order: Order)
      requires Valid() && MarketScanSafe(order.volume, askBook)
      modifies this, order`volume
      ensures Valid()
      ensures var r := MarketLoop(Buy, old(order.Record()), old(bidBook), old(askBook), old(filledOrders));
        bidBook == r.own && askBook == r.book && filledOrders == r.log && order.volume == r.volume
    {
      ghost var goal := MarketLoop(Buy, order.Record(), bidBook, askBook, filledOrders);
      while order.volume > 0
        invariant Valid() && MarketScanSafe(order.volume, askBook)
        invariant MarketLoop(Buy, order.Record(), bidBook, askBook, filledOrders) == goal
        decreases |askBook|
      {
        if askBook == [] {
          InsertKeepsSorted(Buy, bidBook, Entry(order.price, order.volume, order.id, Market));
          bidBook := Insert(Buy, bidBook, Entry(order.price, order.volume, order.id, Market));
          break;
        } else {
          var more := ExecuteBuy(order);
          if !more {
            break;
          }
        }
      }
    }

    /** The loop of a market sell order (MatchingEngine.py:188-197): while the order has volume, rest it on the
        ask book if the opposite book is empty, otherwise execute and stop unless the step says to continue. */
    method SweepBids(order: Order)
      requires Valid() && MarketScanSafe(order.volume, bidBook)
      modifies this, order`volume
      ensures Valid()
      ensures var r := MarketLoop(Sell, old(order.Record()), old(askBook), old(bidBook), old(filledOrders));
        askBook == r.own && bidBook == r.book && filledOrders == r.log && order.volume == r.volume
    {
      ghost var goal := MarketLoop(Sell, order.Record(), askBook, bidBook, filledOrders);
      while order.volume > 0
        invariant Valid() && MarketScanSafe(order.volume, bidBook)
        invariant MarketLoop(Sell, order.Record(), askBook, bidBook, filledOrders) == goal
        decreases |bidBook|
      {
        if bidBook == [] {
          InsertKeepsSorted(Sell, askBook, Entry(order.price, order.volume, order.id, Market));
          askBook := Insert(Sell, askBook, Entry(order.price, order.volume, order.id, Market));
          break;
        } else {
          var more := ExecuteSell(order);
          if !more {
            break;
          }
        }
      }
    }

    /** handle_limit_order: rest the whole order if the opposite book is empty, otherwise match it and rest a
        remainder if one is left; an undefined side changes nothing. */
    method HandleLimitOrder(order: Order)
      requires Valid() && order.kind == LIMIT && Ready(State(), order.Record())
      modifies this, order`volume
      ensures Valid()
      ensures var out := DispatchLimit(old(State()), old(order.Record()));
        State() == out.state && order.Record() == out.order
    {
      if order.side == BUY {
        if askBook == [] {
          InsertKeepsSorted(Buy, bidBook, Entry(order.price, order.volume, order.id, Limit));
          bidBook := Insert(Buy, bidBook, Entry(order.price, order.volume, order.id, Limit));
        } else {
          MatchAsks(order);
          if order.volume > 0 {
            InsertKeepsSorted(Buy, bidBook, Entry(order.price, order.volume, order.id, Limit));
            bidBook := Insert(Buy, bidBook, Entry(order.price, order.volume, order.id, Limit));
          }
        }
      } else if order.side == SELL {
        if bidBook == [] {
          InsertKeepsSorted(Sell, askBook, Entry(order.price, order.volume, order.id, Limit));
          askBook := Insert(Sell, askBook, Entry(order.price, order.volume, order.id, Limit));
        } else {
          MatchBids(order);
          if order.volume > 0 {
            InsertKeepsSorted(Sell, askBook, Entry(order.price, order.volume, order.id, Limit));
            askBook := Insert(Sell, askBook, Entry(order.price, order.volume, order.id, Limit));
          }
        }
      }
    }

    /** handle_market_order: the price is set to 0, then the order sweeps the opposite book, resting what is
        left once that book is empty; an undefined side changes nothing else. */
    method HandleMarketOrder(order: Order)
      requires Valid() && order.kind == MARKET && Ready(State(), order.Record())
      modifies this, order`price, order`volume
      ensures Valid()
      ensures var out := DispatchMarket(old(State()), old(order.Record()));
        State() == out.state && order.Record() == out.order
    {
      order.price := 0;
      if order.side == BUY {
        SweepAsks(order);
      } else if order.side == SELL {
        SweepBids(order);
      }
    }
  }
}
