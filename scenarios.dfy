/** Concrete runs of the engine: each lemma fixes a state and an order and states the outcome. */
module Scenarios {
  import opened Books
  import opened Matching
  import Engine

  const EMPTY := EngineState([], [], [])

  /** A buy limit order on empty books rests whole. */
  lemma LimitRestsOnEmptyBook()
    ensures Dispatch(EMPTY, OrderRecord(LIMIT, BUY, 100, 10, 1)).state == EngineState([Entry(100, 10, 1, Limit)], [], [])
  {
  }

  /** A sell of equal volume at the bid's price fills both; the log names the incoming sell first. */
  lemma EqualVolumesFillBoth()
    ensures Dispatch(EngineState([Entry(100, 10, 1, Limit)], [], []), OrderRecord(LIMIT, SELL, 100, 10, 2)).state
      == EngineState([], [], [Trade(100, 10, 2, Fill, 1, Fill)])
  {
  }

  /** A larger sell below the bid trades at the bid's price and, with the emptiness check the model adds
      to the loop test, rests its remainder on the ask book. The loop as written crashes on this input
      once the only bid is gone (Findings.AsWrittenSellCrashExample). */
  lemma LargerSellRestsRemainder()
    ensures Dispatch(EngineState([Entry(100, 5, 1, Limit)], [], []), OrderRecord(LIMIT, SELL, 90, 8, 2)).state
      == EngineState([], [Entry(90, 3, 2, Limit)], [Trade(100, 5, 2, Part, 1, Fill)])
  {
    var bids := [Entry(100, 5, 1, Limit)];
    var o := OrderRecord(LIMIT, SELL, 90, 8, 2);
    var t := Trade(100, 5, 2, Part, 1, Fill);
    assert bids[0].kind == Limit;
    assert PricedIndex(bids) == 0;
    assert Execute(Sell, o, bids) == Step(t, 3, [], true);
    assert LimitLoop(Sell, o, bids, []) == Progress(3, [], [t]);
    assert Insert(Sell, [], Entry(90, 3, 2, Limit)) == [Entry(90, 3, 2, Limit)];
  }

  /** A market buy on an empty ask book rests at price 0. */
  lemma MarketRestsAtZero()
    ensures Dispatch(EMPTY, OrderRecord(MARKET, BUY, 55, 10, 1))
      == Outcome(EngineState([Entry(0, 10, 1, Market)], [], []), OrderRecord(MARKET, BUY, 0, 10, 1))
  {
  }

  /** An order with an undefined side changes nothing. */
  lemma UndefinedSideChangesNothing()
    ensures Dispatch(EngineState([Entry(100, 5, 1, Limit)], [], []), OrderRecord(LIMIT, 3, 100, 10, 2)).state
      == EngineState([Entry(100, 5, 1, Limit)], [], [])
  {
  }

  /** A resting market bid at price 0 heads the bid book, so a limit sell above 0 does not cross and rests. */
  lemma RestingMarketBidBlocksSell()
    ensures Dispatch(EngineState([Entry(0, 10, 1, Market), Entry(100, 4, 3, Limit)], [], []), OrderRecord(LIMIT, SELL, 90, 5, 4)).state
      == EngineState([Entry(0, 10, 1, Market), Entry(100, 4, 3, Limit)], [Entry(90, 5, 4, Limit)], [])
  {
    var bids := [Entry(0, 10, 1, Market), Entry(100, 4, 3, Limit)];
    var o := OrderRecord(LIMIT, SELL, 90, 5, 4);
    assert !Precedes(Buy, bids[1], bids[0]);
    assert Sorted(Buy, bids);
    assert !Crosses(Sell, 90, bids[0].price);
    assert LimitLoop(Sell, o, bids, []) == Progress(5, bids, []);
    assert Insert(Sell, [], Entry(90, 5, 4, Limit)) == [Entry(90, 5, 4, Limit)];
  }

  /** Against a resting market ask the price comes from the first LIMIT ask, the volume and id from the head. */
  lemma PriceFromFirstLimitEntry()
    ensures HasPriced([Entry(0, 5, 1, Market), Entry(120, 5, 2, Limit)])
    ensures Dispatch(EngineState([], [Entry(0, 5, 1, Market), Entry(120, 5, 2, Limit)], []), OrderRecord(LIMIT, BUY, 110, 3, 3)).state
      == EngineState([], [Entry(0, 2, 1, Market), Entry(120, 5, 2, Limit)], [Trade(110, 3, 3, Fill, 1, Part)])
  {
    assert [Entry(0, 5, 1, Market), Entry(120, 5, 2, Limit)][1].kind == Limit;
  }

  /** The first two scenarios through the engine object: the contracts of its methods alone give the
      states after each call. */
  method TwoOrders() {
    var engine := new Engine.MatchingEngine();
    var buy := new Engine.Order(LIMIT, BUY, 100, 10, 1);
    engine.HandleOrder(buy);
    LimitRestsOnEmptyBook();
    assert engine.State() == EngineState([Entry(100, 10, 1, Limit)], [], []);
    var sell := new Engine.Order(LIMIT, SELL, 100, 10, 2);
    engine.HandleOrder(sell);
    EqualVolumesFillBoth();
    assert engine.State() == EngineState([], [], [Trade(100, 10, 2, Fill, 1, Fill)]);
    assert sell.volume == 0;
  }
}
