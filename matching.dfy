/** The matching engine as functions of its state: one execution step, the two dispatch loops and the
    order handlers. The imperative engine in module Engine is proved to compute exactly these. */
module Matching {
  import opened Books

  /** An order as handle_order receives it: [type, side, price, volume, id]. Type and side are the raw
      codes of the feed, so undefined codes can be represented. */
  datatype OrderRecord = OrderRecord(kind: int, side: int, price: int, volume: nat, id: int)

  /** What one execution step leaves: the trade it logs, the incoming order's remaining volume, the
      opposite book, and the continue flag it returns. */
  datatype Step = Step(trade: Trade, volume: nat, book: seq<Entry>, more: bool)

  /** What a dispatch loop leaves: the incoming order's remaining volume, the opposite book, the trade log
      and (for a market order) its own side's book. */
  datatype Progress = Progress(volume: nat, book: seq<Entry>, log: seq<Trade>)
  datatype Sweep = Sweep(volume: nat, own: seq<Entry>, book: seq<Entry>, log: seq<Trade>)

  /** The three lists of the engine. */
  datatype EngineState = EngineState(bids: seq<Entry>, asks: seq<Entry>, trades: seq<Trade>) {
    function Book(side: Side): seq<Entry> {
      if side == Buy then bids else asks
    }
  }

  /** The state after an order was handled, and the order itself as the handler left it. */
  datatype Outcome = Outcome(state: EngineState, order: OrderRecord)

  /** The state in which side's book is `own`, the opposite book is `opposite` and the log is `log`. */
  function Place(side: Side, own: seq<Entry>, opposite: seq<Entry>, log: seq<Trade>): (s: EngineState)
    ensures s.Book(side) == own && s.Book(side.Opposite()) == opposite && s.trades == log
  {
    if side == Buy then EngineState(own, opposite, log) else EngineState(opposite, own, log)
  }

  /** Both books are in priority order. */
  predicate Valid(s: EngineState) {
    Sorted(Buy, s.bids) && Sorted(Sell, s.asks)
  }

  /** An order on `side` at `price` crosses a resting quote of the opposite book. */
  predicate Crosses(side: Side, price: int, quote: int) {
    if side == Buy then price >= quote else price <= quote
  }

  /** The trade price of an execution step, read at the first non-MARKET entry of the opposite book. */
  function ExecutionPrice(side: Side, o: OrderRecord, book: seq<Entry>): (price: int)
    requires HasPriced(book)
    ensures side == Buy && o.kind == LIMIT ==> price == Min(o.price, book[PricedIndex(book)].price)
    ensures side == Sell || o.kind == MARKET ==> price == book[PricedIndex(book)].price
  {
    var quote := book[PricedIndex(book)].price;
    if side == Sell then quote
    else if o.kind == LIMIT then Min(o.price, quote)
    else if o.kind == MARKET then quote
    else 0
  }

  /** One execution step of an order on `side` against the head of the opposite book. */
  function Execute(side: Side, o: OrderRecord, book: seq<Entry>): (r: Step)
    requires HasPriced(book)
    ensures r.trade.price == ExecutionPrice(side, o, book)
    ensures r.trade.volume == Min(o.volume, book[0].volume)
    ensures r.volume + r.trade.volume == o.volume
    ensures Depth(r.book) + r.trade.volume == Depth(book)
    ensures r.trade.orderId == o.id && r.trade.restingId == book[0].id
    ensures r.trade.orderTag == (if r.volume == 0 then Fill else Part)
    ensures r.trade.restingTag == (if r.trade.volume == book[0].volume then Fill else Part)
    ensures r.trade.volume == book[0].volume ==> r.book == book[1..]
    ensures r.trade.volume < book[0].volume ==>
      r.book == [book[0].(volume := book[0].volume - r.trade.volume)] + book[1..]
    ensures r.more <==> o.volume > book[0].volume
    ensures r.more ==> r.volume > 0 && r.book == book[1..]
  {
    var price := ExecutionPrice(side, o, book);
    var head := book[0];
    if o.volume < head.volume then
      var rest := [head.(volume := head.volume - o.volume)] + book[1..];
      assert rest[1..] == book[1..];
      Step(Trade(price, o.volume, o.id, Fill, head.id, Part), 0, rest, false)
    else if o.volume == head.volume then
      Step(Trade(price, o.volume, o.id, Fill, head.id, Fill), 0, book[1..], false)
    else
      Step(Trade(price, head.volume, o.id, Part, head.id, Fill), o.volume - head.volume, book[1..], true)
  }

  /** An execution step keeps the opposite book sorted, and the scan-forward search stays safe on it. */
  lemma ExecuteKeepsBook(side: Side, o: OrderRecord, book: seq<Entry>)
    requires Sorted(side.Opposite(), book) && HasPriced(book)
    ensures var r := Execute(side, o, book);
      Sorted(side.Opposite(), r.book) && (r.book == [] || HasPriced(r.book))
  {
    var r := Execute(side, o, book);
    var tail := book[1..];
    assert forall i | 1 <= i < |book| :: tail[i - 1] == book[i];
    if r.book == tail {
      PopKeepsPriced(side.Opposite(), book);
    } else {
      assert forall i | 1 <= i < |r.book| :: r.book[i] == book[i];
      assert r.book[0].kind == book[0].kind;
      assert book[PricedIndex(book)].kind == Limit;
      assert PricedIndex(book) == 0 ==> r.book[0].kind == Limit;
      assert PricedIndex(book) > 0 ==> r.book[PricedIndex(book)].kind == Limit;
    }
  }

  /** The scan-forward search of a limit order's loop cannot run off the end of the opposite book: the
      book is empty, the order does not cross its head, or it holds a LIMIT entry. */
  predicate LimitScanSafe(side: Side, price: int, book: seq<Entry>) {
    book == [] || !Crosses(side, price, book[0].price) || HasPriced(book)
  }

  /** Appending one trade adds its volume to the log's total. */
  lemma TradedAppend(log: seq<Trade>, t: Trade)
    ensures Traded(log + [t]) == Traded(log) + t.volume
  {
    assert (log + [t])[..|log|] == log;
  }

  /** A log that extends `log + [t]` with trades of order id, where t is one too, extends log with trades
      of order id. */
  lemma LogExtends(log: seq<Trade>, t: Trade, longer: seq<Trade>, id: int)
    requires t.orderId == id && log + [t] <= longer
    requires forall k | |log| + 1 <= k < |longer| :: longer[k].orderId == id
    ensures log <= longer
    ensures forall k | |log| <= k < |longer| :: longer[k].orderId == id
  {
    assert longer[|log|] == (log + [t])[|log|];
  }

  /** The loop of handle_limit_order: execute while the order crosses the head of the opposite book and
      the step says to continue; stop as well when the opposite book has emptied. */
  function LimitLoop(side: Side, o: OrderRecord, book: seq<Entry>, log: seq<Trade>): (r: Progress)
    requires Sorted(side.Opposite(), book) && LimitScanSafe(side, o.price, book)
    ensures Sorted(side.Opposite(), r.book)
    ensures r.volume == 0 || r.book == [] || !Crosses(side, o.price, r.book[0].price)
    ensures log <= r.log
    ensures forall k | |log| <= k < |r.log| :: r.log[k].orderId == o.id
    decreases |book|
  {
    if book == [] || !Crosses(side, o.price, book[0].price) then
      Progress(o.volume, book, log)
    else
      var s := Execute(side, o, book);
      ExecuteKeepsBook(side, o, book);
      if s.more then
        var r := LimitLoop(side, o.(volume := s.volume), s.book, log + [s.trade]);
        LogExtends(log, s.trade, r.log, o.id);
        r
      else
        assert (log + [s.trade])[|log|] == s.trade;
        Progress(s.volume, s.book, log + [s.trade])
  }

  /** The volume a limit order's loop trades is what left the order and what left the opposite book, and
      it trades exactly when the order crosses the head of the opposite book. */
  lemma {:induction false} LimitLoopConserves(side: Side, o: OrderRecord, book: seq<Entry>, log: seq<Trade>)
    requires Sorted(side.Opposite(), book) && LimitScanSafe(side, o.price, book)
    ensures var r := LimitLoop(side, o, book, log);
      && Traded(r.log) + r.volume == Traded(log) + o.volume
      && Traded(r.log) + Depth(r.book) == Traded(log) + Depth(book)
      && (r.log == log <==> book == [] || !Crosses(side, o.price, book[0].price))
    decreases |book|
  {
    var r := LimitLoop(side, o, book, log);
    if book != [] && Crosses(side, o.price, book[0].price) {
      var s := Execute(side, o, book);
      ExecuteKeepsBook(side, o, book);
      var log' := log + [s.trade];
      TradedAppend(log, s.trade);
      if s.more {
        var o' := o.(volume := s.volume);
        assert r == LimitLoop(side, o', s.book, log');
        LimitLoopConserves(side, o', s.book, log');
      } else {
        assert r == Progress(s.volume, s.book, log');
      }
    }
  }

  /** The scan-forward search of a market order's loop cannot run off the end of the opposite book. */
  predicate MarketScanSafe(volume: nat, book: seq<Entry>) {
    volume == 0 || book == [] || HasPriced(book)
  }

  /** The loop of handle_market_order: while the order has volume, rest it on its own book at its price if
      the opposite book is empty, otherwise execute and stop unless the step says to continue. */
  function MarketLoop(side: Side, o: OrderRecord, own: seq<Entry>, book: seq<Entry>, log: seq<Trade>): (r: Sweep)
    requires Sorted(side.Opposite(), book) && MarketScanSafe(o.volume, book)
    ensures Sorted(side.Opposite(), r.book)
    ensures r.volume == 0 ==> r.own == own
    ensures r.volume > 0 ==> r.book == [] && r.own == Insert(side, own, Entry(o.price, r.volume, o.id, Market))
    ensures log <= r.log
    ensures forall k | |log| <= k < |r.log| :: r.log[k].orderId == o.id
    decreases |book|
  {
    if o.volume == 0 then
      Sweep(0, own, book, log)
    else if book == [] then
      Sweep(o.volume, Insert(side, own, Entry(o.price, o.volume, o.id, Market)), book, log)
    else
      var s := Execute(side, o, book);
      ExecuteKeepsBook(side, o, book);
      if s.more then
        var r := MarketLoop(side, o.(volume := s.volume), own, s.book, log + [s.trade]);
        LogExtends(log, s.trade, r.log, o.id);
        r
      else
        assert (log + [s.trade])[|log|] == s.trade;
        Sweep(s.volume, own, s.book, log + [s.trade])
  }

  /** The volume a market order's loop trades is what left the order and what left the opposite book. */
  lemma {:induction false} MarketLoopConserves(side: Side, o: OrderRecord, own: seq<Entry>, book: seq<Entry>, log: seq<Trade>)
    requires Sorted(side.Opposite(), book) && MarketScanSafe(o.volume, book)
    ensures var r := MarketLoop(side, o, own, book, log);
      && Traded(r.log) + r.volume == Traded(log) + o.volume
      && Traded(r.log) + Depth(r.book) == Traded(log) + Depth(book)
    decreases |book|
  {
    var r := MarketLoop(side, o, own, book, log);
    if o.volume > 0 && book != [] {
      var s := Execute(side, o, book);
      ExecuteKeepsBook(side, o, book);
      var log' := log + [s.trade];
      TradedAppend(log, s.trade);
      if s.more {
        var o' := o.(volume := s.volume);
        assert r == MarketLoop(side, o', own, s.book, log');
        MarketLoopConserves(side, o', own, s.book, log');
      } else {
        assert r == Sweep(s.volume, own, s.book, log');
      }
    }
  }

  /** handle_limit_order for a valid side: rest the whole order if the opposite book is empty, otherwise run
      the loop and rest a remainder if one is left. */
  function LimitOrder(side: Side, s: EngineState, o: OrderRecord): Outcome
    requires Valid(s) && LimitScanSafe(side, o.price, s.Book(side.Opposite()))
  {
    var opposite := s.Book(side.Opposite());
    if opposite == [] then
      Outcome(Place(side, Insert(side, s.Book(side), Entry(o.price, o.volume, o.id, Limit)), opposite, s.trades), o)
    else
      var r := LimitLoop(side, o, opposite, s.trades);
      var own := if r.volume > 0 then Insert(side, s.Book(side), Entry(o.price, r.volume, o.id, Limit)) else s.Book(side);
      Outcome(Place(side, own, r.book, r.log), o.(volume := r.volume))
  }

  /** handle_market_order for a valid side, on an order whose price has already been set to 0. */
  function MarketOrder(side: Side, s: EngineState, o: OrderRecord): Outcome
    requires Valid(s) && MarketScanSafe(o.volume, s.Book(side.Opposite()))
  {
    var r := MarketLoop(side, o, s.Book(side), s.Book(side.Opposite()), s.trades);
    Outcome(Place(side, r.own, r.book, r.log), o.(volume := r.volume))
  }

  /** What handle_order needs so that no scan-forward search runs off the end of a book. */
  predicate Ready(s: EngineState, o: OrderRecord) {
    && (o.kind == LIMIT && o.side == BUY ==> LimitScanSafe(Buy, o.price, s.asks))
    && (o.kind == LIMIT && o.side == SELL ==> LimitScanSafe(Sell, o.price, s.bids))
    && (o.kind == MARKET && o.side == BUY ==> MarketScanSafe(o.volume, s.asks))
    && (o.kind == MARKET && o.side == SELL ==> MarketScanSafe(o.volume, s.bids))
  }

  /** handle_limit_order: an order whose side is neither BUY nor SELL is dropped. */
  function DispatchLimit(s: EngineState, o: OrderRecord): Outcome
    requires Valid(s) && o.kind == LIMIT && Ready(s, o)
  {
    if o.side == BUY then LimitOrder(Buy, s, o)
    else if o.side == SELL then LimitOrder(Sell, s, o)
    else Outcome(s, o)
  }

  /** handle_market_order: the price is set to 0 first; an order whose side is neither BUY nor SELL is
      then dropped. */
  function DispatchMarket(s: EngineState, o: OrderRecord): Outcome
    requires Valid(s) && o.kind == MARKET && Ready(s, o)
  {
    var o' := o.(price := 0);
    if o.side == BUY then MarketOrder(Buy, s, o')
    else if o.side == SELL then MarketOrder(Sell, s, o')
    else Outcome(s, o')
  }

  /** handle_order: route by type; an undefined type is dropped. */
  function Dispatch(s: EngineState, o: OrderRecord): Outcome
    requires Valid(s) && Ready(s, o)
  {
    if o.kind == LIMIT then DispatchLimit(s, o)
    else if o.kind == MARKET then DispatchMarket(s, o)
    else Outcome(s, o)
  }

  /** The sort invariant: handling any order leaves both books in priority order. */
  lemma DispatchKeepsValid(s: EngineState, o: OrderRecord)
    requires Valid(s) && Ready(s, o)
    ensures Valid(Dispatch(s, o).state)
  {
    var out := Dispatch(s, o);
    if o.kind == LIMIT && (o.side == BUY || o.side == SELL) {
      var side := if o.side == BUY then Buy else Sell;
      var opposite := s.Book(side.Opposite());
      if opposite == [] {
        InsertKeepsSorted(side, s.Book(side), Entry(o.price, o.volume, o.id, Limit));
      } else {
        var r := LimitLoop(side, o, opposite, s.trades);
        InsertKeepsSorted(side, s.Book(side), Entry(o.price, r.volume, o.id, Limit));
      }
    } else if o.kind == MARKET && (o.side == BUY || o.side == SELL) {
      var side := if o.side == BUY then Buy else Sell;
      var o' := o.(price := 0);
      var r := MarketLoop(side, o', s.Book(side), s.Book(side.Opposite()), s.trades);
      InsertKeepsSorted(side, s.Book(side), Entry(0, r.volume, o.id, Market));
    }
  }

  /** Volume is conserved by handling any order: what the new trades carry is what left the order, and the
      earlier trades are kept as they were. Only the volume (and, for a market order, the price) of the
      order changes. */
  lemma DispatchConserves(s: EngineState, o: OrderRecord)
    requires Valid(s) && Ready(s, o)
    ensures var out := Dispatch(s, o);
      && s.trades <= out.state.trades
      && Traded(out.state.trades) + out.order.volume == Traded(s.trades) + o.volume
      && out.order == o.(volume := out.order.volume, price := out.order.price)
      && out.order.price == (if o.kind == MARKET then 0 else o.price)
  {
    if o.kind == LIMIT && (o.side == BUY || o.side == SELL) {
      var side := if o.side == BUY then Buy else Sell;
      if s.Book(side.Opposite()) != [] {
        LimitLoopConserves(side, o, s.Book(side.Opposite()), s.trades);
      }
    } else if o.kind == MARKET && (o.side == BUY || o.side == SELL) {
      var side := if o.side == BUY then Buy else Sell;
      MarketLoopConserves(side, o.(price := 0), s.Book(side), s.Book(side.Opposite()), s.trades);
    }
  }

  /** An order whose type is neither LIMIT nor MARKET, or whose side is neither BUY nor SELL, changes
      neither book nor the trade log. */
  lemma UndefinedOrderDropped(s: EngineState, o: OrderRecord)
    requires Valid(s) && Ready(s, o)
    requires (o.kind != LIMIT && o.kind != MARKET) || (o.side != BUY && o.side != SELL)
    ensures Dispatch(s, o).state == s
  {
  }

  /** What a limit order leaves on the books. It rests exactly when the opposite book was empty or volume
      remains after matching, and then with its remaining volume at its own price: a fully filled order
      never rests. A resting remainder does not cross the head of the opposite book. The opposite book
      loses exactly the volume traded, and the order's own book is otherwise unchanged. */
  lemma {:induction false} LimitOrderRests(side: Side, s: EngineState, o: OrderRecord)
    requires Valid(s) && LimitScanSafe(side, o.price, s.Book(side.Opposite()))
    ensures var out := LimitOrder(side, s, o);
      var opposite := out.state.Book(side.Opposite());
      var rests := s.Book(side.Opposite()) == [] || out.order.volume > 0;
      && multiset(out.state.Book(side)) == multiset(s.Book(side))
           + (if rests then multiset{Entry(o.price, out.order.volume, o.id, Limit)} else multiset{})
      && (rests ==> opposite == [] || !Crosses(side, o.price, opposite[0].price))
      && Traded(out.state.trades) + Depth(opposite) == Traded(s.trades) + Depth(s.Book(side.Opposite()))
      && (s.Book(side.Opposite()) == [] ==> out.order == o && out.state.trades == s.trades)
  {
    var opp := s.Book(side.Opposite());
    if opp != [] {
      LimitLoopConserves(side, o, opp, s.trades);
    }
  }

  /** What a market order leaves on the books. A remainder rests, at price 0 and with all the volume left,
      only once the opposite book has been emptied; otherwise the order's own book is unchanged. The
      opposite book loses exactly the volume traded. */
  lemma {:induction false} MarketOrderRests(side: Side, s: EngineState, o: OrderRecord)
    requires Valid(s) && MarketScanSafe(o.volume, s.Book(side.Opposite())) && o.price == 0
    ensures var out := MarketOrder(side, s, o);
      var opposite := out.state.Book(side.Opposite());
      && multiset(out.state.Book(side)) == multiset(s.Book(side))
           + (if out.order.volume > 0 then multiset{Entry(0, out.order.volume, o.id, Market)} else multiset{})
      && (out.order.volume > 0 ==> opposite == [])
      && Traded(out.state.trades) + Depth(opposite) == Traded(s.trades) + Depth(s.Book(side.Opposite()))
      && (s.Book(side.Opposite()) == [] ==> out.order == o && out.state.trades == s.trades)
  {
    MarketLoopConserves(side, o, s.Book(side), s.Book(side.Opposite()), s.trades);
  }
}
